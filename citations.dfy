/** The citation line of an answer: the page numbers of the retrieved
    sources, without duplicates, in ascending order, written in decimal and
    joined with `", "` (`sorted(set(...))` followed by `", ".join(map(str, ...))`). */
module Citations {
  import opened Text

  /** The separator between page numbers in the citation line. */
  const Separator: string := ", "

  predicate StrictlyAscending(xs: seq<int>)
  {
    forall i, j :: 0 <= i < j < |xs| ==> xs[i] < xs[j]
  }

  /** Adds `x` to an ascending list without duplicates, keeping it so. */
  function Insert(xs: seq<int>, x: int): (r: seq<int>)
    requires StrictlyAscending(xs)
    ensures StrictlyAscending(r)
    ensures forall y :: y in r <==> y in xs || y == x
  {
    if |xs| == 0 then [x]
    else if x < xs[0] then [x] + xs
    else if x == xs[0] then xs
    else
      var rest := Insert(xs[1..], x);
      assert xs == [xs[0]] + xs[1..];
      assert forall y :: y in rest ==> xs[0] < y;
      ConsAscending(xs[0], rest);
      [xs[0]] + rest
  }

  /** A number below every element of an ascending list can go in front. */
  lemma ConsAscending(h: int, rest: seq<int>)
    requires StrictlyAscending(rest)
    requires forall y :: y in rest ==> h < y
    ensures StrictlyAscending([h] + rest)
  {
    forall i, j | 0 <= i < j < |[h] + rest| ensures ([h] + rest)[i] < ([h] + rest)[j] {
      assert rest[j - 1] in rest;
    }
  }

  /** `sorted(set(pages))`: every page number once, smallest first. */
  function SortedPages(pages: seq<int>): (r: seq<int>)
    ensures StrictlyAscending(r)
    ensures forall y :: y in r <==> y in pages
  {
    if |pages| == 0 then []
    else
      var front := pages[..|pages| - 1];
      assert forall y :: y in pages <==> y in front || y == pages[|pages| - 1] by {
        assert pages == front + [pages[|pages| - 1]];
      }
      Insert(SortedPages(front), pages[|pages| - 1])
  }

  /** Two ascending lists without duplicates that hold the same numbers are
      the same list: `sorted(set(...))` does not depend on the order in which
      the set gives up its elements. */
  lemma {:induction false} AscendingUnique(a: seq<int>, b: seq<int>)
    requires StrictlyAscending(a) && StrictlyAscending(b)
    requires forall y :: y in a <==> y in b
    ensures a == b
  {
    assert |a| > 0 ==> a[0] in a;
    assert |b| > 0 ==> b[0] in b;
    if |a| > 0 && |b| > 0 {
      assert a[0] == b[0] by {
        assert a[0] in b && b[0] in a;
      }
      forall y ensures y in a[1..] <==> y in b[1..] {
        assert y in a[1..] <==> y in a && y != a[0];
        assert y in b[1..] <==> y in b && y != b[0];
      }
      AscendingUnique(a[1..], b[1..]);
      assert a == [a[0]] + a[1..] && b == [b[0]] + b[1..];
    }
  }

  /** An ascending list without duplicates has as many elements as the set
      of its elements. */
  lemma {:induction false} AscendingCard(xs: seq<int>)
    requires StrictlyAscending(xs)
    ensures |set y | y in xs| == |xs|
  {
    if |xs| > 0 {
      AscendingCard(xs[1..]);
      assert (set y | y in xs) == {xs[0]} + (set y | y in xs[1..]);
      assert xs[0] !in (set y | y in xs[1..]);
    }
  }

  /** The deduplicated list has one entry per distinct page number. */
  lemma DistinctCount(pages: seq<int>)
    ensures |SortedPages(pages)| == |set p | p in pages|
  {
    var r := SortedPages(pages);
    AscendingCard(r);
    assert (set y | y in r) == (set p | p in pages);
  }

  /** The character of a decimal digit. */
  function DigitChar(d: nat): char
    requires d < 10
  {
    (('0' as int) + d) as char
  }

  /** Python's `str(n)` for a natural number: its decimal digits, with no
      leading zero except in "0" itself. */
  function NatToDecimal(n: nat): (r: string)
    ensures |r| > 0
    ensures forall i :: 0 <= i < |r| ==> '0' <= r[i] <= '9'
    ensures r[0] == '0' ==> n == 0 && |r| == 1
    decreases n
  {
    if n < 10 then [DigitChar(n)] else NatToDecimal(n / 10) + [DigitChar(n % 10)]
  }

  /** Python's `str(i)` for an integer: a minus sign exactly for a negative
      number, then the digits of its magnitude, with no leading zero except
      in "0" itself and none right after the sign. */
  function IntToDecimal(i: int): (r: string)
    ensures |r| > 0
    ensures forall k :: 0 <= k < |r| ==> r[k] == '-' || '0' <= r[k] <= '9'
    ensures (r[0] == '-') == (i < 0)
    ensures forall k :: 1 <= k < |r| ==> r[k] != '-'
    ensures i < 0 ==> |r| > 1 && r[1] != '0'
    ensures r[0] == '0' ==> i == 0 && |r| == 1
  {
    if i < 0 then "-" + NatToDecimal(-i) else NatToDecimal(i)
  }

  /** The number a string of decimal digits stands for. */
  function DecimalValue(ds: string): nat
    requires forall i :: 0 <= i < |ds| ==> '0' <= ds[i] <= '9'
  {
    if |ds| == 0 then 0
    else DecimalValue(ds[..|ds| - 1]) * 10 + (ds[|ds| - 1] as int - '0' as int)
  }

  /** A numeral whose first digit is not zero stands for a positive
      number. */
  lemma {:induction false} LeadingDigitPositive(ds: string)
    requires |ds| > 0 && forall i :: 0 <= i < |ds| ==> '0' <= ds[i] <= '9'
    requires ds[0] != '0'
    ensures DecimalValue(ds) > 0
  {
    if |ds| > 1 {
      LeadingDigitPositive(ds[..|ds| - 1]);
    }
  }

  /** `str` is the only way to write a number in decimal without a leading
      zero: any such numeral is the one `NatToDecimal` produces. */
  lemma {:induction false} NatToDecimalUnique(ds: string)
    requires |ds| > 0 && forall i :: 0 <= i < |ds| ==> '0' <= ds[i] <= '9'
    requires ds[0] == '0' ==> |ds| == 1
    ensures NatToDecimal(DecimalValue(ds)) == ds
  {
    var last := ds[|ds| - 1];
    var d := last as int - '0' as int;
    assert DigitChar(d) == last;
    if |ds| > 1 {
      var front := ds[..|ds| - 1];
      LeadingDigitPositive(front);
      NatToDecimalUnique(front);
      var n := DecimalValue(ds);
      assert n / 10 == DecimalValue(front) && n % 10 == d;
      assert ds == front + [last];
    }
  }

  /** Reading back a decimal numeral gives back the number. */
  lemma {:induction false} NatDecimalRoundTrip(n: nat)
    ensures DecimalValue(NatToDecimal(n)) == n
    decreases n
  {
    if n >= 10 {
      var ds := NatToDecimal(n);
      assert ds[..|ds| - 1] == NatToDecimal(n / 10);
      NatDecimalRoundTrip(n / 10);
    }
  }

  /** Python's `int(s)` for what `str` produces. */
  function ParseInt(s: string): int
    requires forall k :: 0 <= k < |s| ==> s[k] == '-' || '0' <= s[k] <= '9'
    requires forall k :: 1 <= k < |s| ==> s[k] != '-'
  {
    if |s| > 0 && s[0] == '-' then -(DecimalValue(s[1..]) as int) else DecimalValue(s)
  }

  /** Reading back `str(i)` gives back `i`. */
  lemma IntDecimalRoundTrip(i: int)
    ensures ParseInt(IntToDecimal(i)) == i
  {
    if i < 0 {
      assert IntToDecimal(i)[1..] == NatToDecimal(-i);
      NatDecimalRoundTrip(-i);
    } else {
      NatDecimalRoundTrip(i);
    }
  }

  /** `map(str, xs)`. */
  function RenderAll(xs: seq<int>): seq<string>
  {
    seq(|xs|, k requires 0 <= k < |xs| => IntToDecimal(xs[k]))
  }

  /** The citation line for the page numbers of an answer's sources; it is
      empty exactly when there are no sources. */
  function CitationString(pages: seq<int>): (r: string)
    ensures r == [] <==> |pages| == 0
  {
    var sorted := SortedPages(pages);
    assert |pages| > 0 ==> pages[0] in sorted && |IntToDecimal(sorted[0])| > 0;
    Join(RenderAll(sorted), Separator)
  }

  /** The citation line reads back as the distinct page numbers in
      ascending order: split at the separators, each piece is the decimal
      numeral of the next page number. */
  lemma CitationReadsBack(pages: seq<int>)
    requires |pages| > 0
    ensures var pieces := Split(CitationString(pages), Separator);
      |pieces| == |SortedPages(pages)|
      && forall k :: 0 <= k < |pieces| ==> pieces[k] == IntToDecimal(SortedPages(pages)[k])
  {
    var sorted := SortedPages(pages);
    assert pages[0] in sorted;
    var parts := RenderAll(sorted);
    forall k, i | 0 <= k < |parts| && 0 <= i < |parts[k]| ensures parts[k][i] != Separator[0] {
      assert parts[k] == IntToDecimal(sorted[k]);
    }
    SplitJoin(parts, Separator);
  }

  /** Pages 3, 1, 3 and 2 are cited as "1, 2, 3". */
  lemma ExamplePages(pages: seq<int>)
    requires pages == [3, 1, 3, 2]
    ensures CitationString(pages) == "1, 2, 3"
  {
    AscendingUnique(SortedPages(pages), [1, 2, 3]);
    assert IntToDecimal(1) == "1" && IntToDecimal(2) == "2" && IntToDecimal(3) == "3";
    assert RenderAll([1, 2, 3]) == ["1", "2", "3"];
    assert Join(["1", "2", "3"], Separator) == "1, 2, 3";
  }
}
