/** Python's built-in string operations that the page logic relies on,
    stated over `seq<char>`: `replace`, the first piece of `split`, `strip`
    and `join`. `IndexOf` is the leftmost search that `replace` and `split`
    perform; the full `Split` is the inverse used to read a join back. */
module Text {

  datatype Option<T> = None | Some(value: T)

  /** `p` occurs in `s` starting at index `i`. */
  predicate OccursAt(s: string, p: string, i: nat)
  {
    i + |p| <= |s| && s[i..i + |p|] == p
  }

  /** Python's `p in s`. */
  predicate Contains(s: string, p: string)
  {
    exists i: nat :: i <= |s| && OccursAt(s, p, i)
  }

  /** Python's `str.isspace()` for a single character: the characters that
      `str.strip()` with no argument removes. */
  predicate IsSpace(c: char)
  {
    ('\t' <= c <= '\r') || ('\U{1c}' <= c <= ' ') || c == '\U{85}' || c == '\U{a0}'
    || c == '\U{1680}' || ('\U{2000}' <= c <= '\U{200a}') || c == '\U{2028}' || c == '\U{2029}'
    || c == '\U{202f}' || c == '\U{205f}' || c == '\U{3000}'
  }

  /** The leftmost occurrence of `p` in `s` at or after `from`, if any. */
  function IndexFrom(s: string, p: string, from: nat): (r: Option<nat>)
    ensures r.Some? ==> from <= r.value && OccursAt(s, p, r.value)
    ensures r.Some? ==> forall j: nat :: from <= j < r.value ==> !OccursAt(s, p, j)
    ensures r.None? ==> forall j: nat :: from <= j ==> !OccursAt(s, p, j)
    decreases |s| - from
  {
    if |s| < from + |p| then None
    else if OccursAt(s, p, from) then Some(from)
    else IndexFrom(s, p, from + 1)
  }

  /** The leftmost occurrence of `p` in `s`, if any: the search `replace` and `split` perform. */
  function IndexOf(s: string, p: string): (r: Option<nat>)
    ensures r.Some? ==> OccursAt(s, p, r.value)
    ensures r.Some? ==> forall j: nat :: j < r.value ==> !OccursAt(s, p, j)
    ensures r.None? ==> forall j: nat :: !OccursAt(s, p, j)
  {
    IndexFrom(s, p, 0)
  }

  /** The leftmost occurrence is the only one that satisfies both halves of
      the contract of `IndexOf`. */
  lemma IndexOfIs(s: string, p: string, k: nat)
    requires OccursAt(s, p, k)
    requires forall j: nat :: j < k ==> !OccursAt(s, p, j)
    ensures IndexOf(s, p) == Some(k)
  {
    assert !(IndexOf(s, p).Some? && IndexOf(s, p).value < k);
  }

  /** A slice of a prefix is a slice of the whole. */
  lemma SliceOfPrefix(s: string, n: nat, i: nat, j: nat)
    requires i <= j <= n <= |s|
    ensures s[..n][i..j] == s[i..j]
  {
  }

  /** Two strings that agree on their first `n` characters have the same
      leftmost occurrence of `p`, when that occurrence ends within those
      `n` characters. */
  lemma {:induction false} IndexOfFromPrefix(s: string, t: string, p: string, k: nat, n: nat)
    requires n <= |s| && n <= |t| && s[..n] == t[..n]
    requires IndexOf(s, p) == Some(k) && k + |p| <= n
    ensures IndexOf(t, p) == Some(k)
  {
    SliceOfPrefix(s, n, k, k + |p|);
    SliceOfPrefix(t, n, k, k + |p|);
    forall j: nat | j < k ensures !OccursAt(t, p, j) {
      assert !OccursAt(s, p, j);
      SliceOfPrefix(s, n, j, j + |p|);
      SliceOfPrefix(t, n, j, j + |p|);
    }
    IndexOfIs(t, p, k);
  }

  /** Two strings that agree on their first `n` characters have the same
      text before the first occurrence of `p`, when that occurrence ends
      within those `n` characters. */
  lemma BeforeFromPrefix(s: string, t: string, p: string, k: nat, n: nat)
    requires |p| > 0 && n <= |s| && n <= |t| && s[..n] == t[..n]
    requires IndexOf(s, p) == Some(k) && k + |p| <= n
    ensures Before(t, p) == s[..k]
  {
    IndexOfFromPrefix(s, t, p, k, n);
    BeforeAt(t, p, k);
    SliceOfPrefix(s, n, 0, k);
    SliceOfPrefix(t, n, 0, k);
  }

  /** An occurrence inside a piece of `s` is an occurrence in `s`. */
  lemma {:induction false} ContainsTransitive(s: string, r: string, p: string)
    requires Contains(s, r) && Contains(r, p)
    ensures Contains(s, p)
  {
    var a: nat :| a <= |s| && OccursAt(s, r, a);
    var i: nat :| i <= |r| && OccursAt(r, p, i);
    assert a + |r| <= |s| && i + |p| <= |r|;
    assert s[a..a + |r|] == r && r[i..i + |p|] == p;
    forall k | 0 <= k < |p| ensures s[a + i..a + i + |p|][k] == p[k] {
      assert s[a + i + k] == s[a..a + |r|][i + k] == r[i + k] == r[i..i + |p|][k];
    }
    assert s[a + i..a + i + |p|] == p;
    assert OccursAt(s, p, a + i);
  }

  /** Python's `s.replace(p, rep)` with a non-empty `p`: every occurrence,
      found left to right without overlap, is replaced. */
  function Replace(s: string, p: string, rep: string): (r: string)
    requires |p| > 0
    ensures !Contains(s, p) ==> r == s
    decreases |s|
  {
    match IndexOf(s, p)
    case None => s
    case Some(i) =>
      assert OccursAt(s, p, i);
      s[..i] + rep + Replace(s[i + |p|..], p, rep)
  }

  /** A replacement as long as the pattern keeps the length. */
  lemma {:induction false} ReplaceLength(s: string, p: string, rep: string)
    requires |p| > 0 && |rep| == |p|
    ensures |Replace(s, p, rep)| == |s|
    decreases |s|
  {
    match IndexOf(s, p)
    case None =>
    case Some(i) =>
      assert OccursAt(s, p, i);
      var rest := Replace(s[i + |p|..], p, rep);
      assert |Replace(s, p, rep)| == |s[..i] + rep + rest|;
      ReplaceLength(s[i + |p|..], p, rep);
  }

  /** `Replace` at the first occurrence: the text before it, then the
      replacement. */
  lemma ReplaceAt(s: string, p: string, rep: string, i: nat)
    requires |p| > 0 && IndexOf(s, p) == Some(i)
    ensures i + |rep| <= |Replace(s, p, rep)|
    ensures Replace(s, p, rep)[..i + |rep|] == s[..i] + rep
  {
    assert OccursAt(s, p, i);
    var rest := Replace(s[i + |p|..], p, rep);
    assert |Replace(s, p, rep)| == |s[..i] + rep + rest|;
    assert Replace(s, p, rep)[..i + |rep|] == (s[..i] + rep + rest)[..i + |rep|];
    PrefixOfConcat(s[..i], rep, rest);
  }

  /** The first `|a| + |b|` characters of `a + b + c`. */
  lemma PrefixOfConcat(a: string, b: string, c: string)
    ensures (a + b + c)[..|a| + |b|] == a + b
  {
  }

  /** `Before` cuts at the first occurrence. */
  lemma BeforeAt(s: string, p: string, i: nat)
    requires |p| > 0 && IndexOf(s, p) == Some(i)
    ensures Before(s, p) == s[..i]
  {
  }

  /** `Replace` leaves alone everything before the first occurrence. */
  lemma ReplaceKeepsPrefix(s: string, p: string, rep: string, n: nat)
    requires |p| > 0 && n <= |s|
    requires forall j: nat :: j < n ==> !OccursAt(s, p, j)
    ensures n <= |Replace(s, p, rep)| && Replace(s, p, rep)[..n] == s[..n]
  {
    match IndexOf(s, p)
    case None =>
    case Some(i) =>
      assert !(i < n);
      assert Replace(s, p, rep)[..n] == (s[..i] + rep + Replace(s[i + |p|..], p, rep))[..n];
  }

  /** Python's `s.split(p)[0]`: the text before the first occurrence of `p`,
      or all of `s` when there is none. */
  function Before(s: string, p: string): (r: string)
    requires |p| > 0
    ensures |r| <= |s| && r == s[..|r|]
    ensures forall j: nat :: j < |r| ==> !OccursAt(s, p, j)
    ensures r == s || OccursAt(s, p, |r|)
    ensures !Contains(r, p)
  {
    match IndexOf(s, p)
    case None => s
    case Some(i) =>
      var r := s[..i];
      forall j: nat ensures !OccursAt(r, p, j) {
        if j + |p| <= |r| {
          assert j < i;
          assert !OccursAt(s, p, j);
          assert r[j..j + |p|] == s[j..j + |p|];
        }
      }
      r
  }

  /** The end of the run of whitespace that starts at `i`. */
  function SpaceEnd(s: string, i: nat): (r: nat)
    requires i <= |s|
    ensures i <= r <= |s|
    ensures forall k :: i <= k < r ==> IsSpace(s[k])
    ensures r == |s| || !IsSpace(s[r])
    decreases |s| - i
  {
    if i < |s| && IsSpace(s[i]) then SpaceEnd(s, i + 1) else i
  }

  /** The start of the run of whitespace that ends at `j`. */
  function SpaceStart(s: string, j: nat): (r: nat)
    requires j <= |s|
    ensures r <= j
    ensures forall k :: r <= k < j ==> IsSpace(s[k])
    ensures r == 0 || !IsSpace(s[r - 1])
  {
    if j > 0 && IsSpace(s[j - 1]) then SpaceStart(s, j - 1) else j
  }

  /** Python's `s.strip()`: `s` without leading and trailing whitespace. */
  function Strip(s: string): (r: string)
    ensures r == [] || (!IsSpace(r[0]) && !IsSpace(r[|r| - 1]))
    ensures Contains(s, r)
  {
    var a := SpaceEnd(s, 0);
    if a == |s| then
      assert OccursAt(s, [], 0);
      []
    else
      var b := SpaceStart(s, |s|);
      assert a < b;
      assert OccursAt(s, s[a..b], a);
      s[a..b]
  }

  /** Only one piece of `s` lies between a whitespace prefix and a
      whitespace suffix and neither starts nor ends with whitespace: the
      result of `Strip`. */
  lemma StripUnique(s: string, a: nat, b: nat)
    requires a <= b <= |s|
    requires forall i :: 0 <= i < a ==> IsSpace(s[i])
    requires forall i :: b <= i < |s| ==> IsSpace(s[i])
    requires a == b || (!IsSpace(s[a]) && !IsSpace(s[b - 1]))
    ensures Strip(s) == s[a..b]
  {
    var a' := SpaceEnd(s, 0);
    if a == b {
      assert forall i :: 0 <= i < |s| ==> IsSpace(s[i]);
    } else {
      assert a' == a by {
        assert a' <= a;
        assert !(a' < a);
      }
      var b' := SpaceStart(s, |s|);
      assert b' == b by {
        assert b' >= b;
        assert !(b' > b);
      }
    }
  }

  /** What `Strip` removes is whitespace and nothing else: the result is the
      piece of `s` between a whitespace prefix and a whitespace suffix. */
  lemma StripSlice(s: string) returns (a: nat)
    ensures a + |Strip(s)| <= |s| && s[a..a + |Strip(s)|] == Strip(s)
    ensures forall i :: 0 <= i < a ==> IsSpace(s[i])
    ensures forall i :: a + |Strip(s)| <= i < |s| ==> IsSpace(s[i])
  {
    a := SpaceEnd(s, 0);
    if a == |s| {
      a := 0;
    }
  }

  /** A string without surrounding whitespace is left unchanged by `Strip`. */
  lemma StripStripped(s: string)
    requires s == [] || (!IsSpace(s[0]) && !IsSpace(s[|s| - 1]))
    ensures Strip(s) == s
  {
    StripUnique(s, 0, |s|);
  }

  /** A trailing whitespace character makes no difference to `Strip`. */
  lemma StripTrailingSpace(s: string, c: char)
    requires IsSpace(c)
    ensures Strip(s + [c]) == Strip(s)
  {
    var t := s + [c];
    var a := StripSlice(s);
    var r := Strip(s);
    if r == [] {
      forall i | 0 <= i < |t| ensures IsSpace(t[i]) {
        if i < a {
        } else if i < |s| {
          assert a + |r| <= i;
        }
      }
      StripUnique(t, 0, 0);
    } else {
      assert t[..|s|] == s;
      SliceOfPrefix(t, |s|, a, a + |r|);
      StripUnique(t, a, a + |r|);
    }
  }

  /** A non-empty string is its front followed by its last character. */
  lemma FrontLast(b: string)
    requires |b| > 0
    ensures b[..|b| - 1] + [b[|b| - 1]] == b
  {
  }

  /** Python's `sep.join(parts)`. */
  function Join(parts: seq<string>, sep: string): (r: string)
    ensures |parts| == 0 ==> r == []
    ensures |parts| > 0 ==> |parts[0]| <= |r| && r[..|parts[0]|] == parts[0]
  {
    if |parts| == 0 then []
    else if |parts| == 1 then parts[0]
    else
      var r := parts[0] + sep + Join(parts[1..], sep);
      assert r[..|parts[0]|] == parts[0];
      r
  }

  /** Python's `s.split(sep)` with a non-empty `sep`: the pieces between
      successive occurrences, always at least one. */
  function Split(s: string, sep: string): (r: seq<string>)
    requires |sep| > 0
    ensures |r| > 0
    decreases |s|
  {
    match IndexOf(s, sep)
    case None => [s]
    case Some(i) =>
      assert OccursAt(s, sep, i);
      [s[..i]] + Split(s[i + |sep|..], sep)
  }

  /** `s.split(sep)[0]` is the text before the first occurrence. */
  lemma SplitFirst(s: string, sep: string)
    requires |sep| > 0
    ensures Split(s, sep)[0] == Before(s, sep)
  {
  }

  /** Splitting a join gives the parts back, when no part holds the
      separator's first character (so no separator can start inside one). */
  lemma {:induction false} SplitJoin(parts: seq<string>, sep: string)
    requires |parts| > 0 && |sep| > 0
    requires forall k, i :: 0 <= k < |parts| && 0 <= i < |parts[k]| ==> parts[k][i] != sep[0]
    ensures Split(Join(parts, sep), sep) == parts
  {
    var p0 := parts[0];
    if |parts| == 1 {
      forall j: nat ensures !OccursAt(p0, sep, j) {
        if j + |sep| <= |p0| {
          assert p0[j..j + |sep|][0] == p0[j] != sep[0];
        }
      }
    } else {
      var rest := Join(parts[1..], sep);
      var s := p0 + sep + rest;
      assert s[|p0|..|p0| + |sep|] == sep;
      forall j: nat | j < |p0| ensures !OccursAt(s, sep, j) {
        assert s[j] == p0[j] != sep[0];
        if j + |sep| <= |s| {
          assert s[j..j + |sep|][0] == s[j];
        }
      }
      IndexOfIs(s, sep, |p0|);
      assert s[..|p0|] == p0;
      assert s[|p0| + |sep|..] == rest;
      SplitJoin(parts[1..], sep);
      assert [p0] + parts[1..] == parts;
    }
  }
}
