/** `extract_answer_without_sources`: cut a model response at its first
    `SOURCES:` marker, after turning a newline on either side of a marker
    into a space, and strip the surrounding whitespace. */
module Answer {
  import opened Text

  /** The marker that ends the answer body in a model response. */
  const Marker: string := "SOURCES:"

  /** First normalisation: a newline just before a marker becomes a space. */
  const NewlineMarker: string := "\nSOURCES:"
  const SpaceMarker: string := " SOURCES:"

  /** Second normalisation: a newline just after a marker becomes a space. */
  const MarkerNewline: string := "SOURCES:\n"
  const MarkerSpace: string := "SOURCES: "

  /** The two `replace` calls, in the order the page makes them. Before the
      first marker they change at most one character: the newline just in
      front of that marker becomes a space. */
  function Normalize(s: string): (r: string)
    ensures var b := Before(s, Marker);
      Before(r, Marker) == if b != s && |b| > 0 && b[|b| - 1] == '\n' then b[..|b| - 1] + [' '] else b
  {
    var t := Replace(s, NewlineMarker, SpaceMarker);
    FirstReplaceBefore(s);
    SecondReplaceBefore(t);
    Replace(t, MarkerNewline, MarkerSpace)
  }

  /** The answer body of a model response: never holds the marker and has
      no surrounding whitespace. */
  function ExtractAnswerWithoutSources(s: string): (r: string)
    ensures !Contains(r, Marker)
    ensures r == [] || (!IsSpace(r[0]) && !IsSpace(r[|r| - 1]))
  {
    var body := Before(Normalize(s), Marker);
    var r := Strip(body);
    assert !Contains(r, Marker) by {
      if Contains(r, Marker) {
        ContainsTransitive(body, r, Marker);
      }
    }
    r
  }

  /** An occurrence of `"\nSOURCES:"` is a newline followed by a marker. */
  lemma NewlineMarkerAt(s: string, j: nat)
    ensures OccursAt(s, NewlineMarker, j) ==> s[j] == '\n' && OccursAt(s, Marker, j + 1)
  {
    if OccursAt(s, NewlineMarker, j) {
      assert s[j + 1..j + 9] == s[j..j + 9][1..];
    }
  }

  /** An occurrence of `"SOURCES:\n"` is a marker followed by a newline. */
  lemma MarkerNewlineAt(s: string, j: nat)
    ensures OccursAt(s, MarkerNewline, j) ==> OccursAt(s, Marker, j)
  {
    if OccursAt(s, MarkerNewline, j) {
      assert s[j..j + 8] == s[j..j + 9][..8];
    }
  }

  /** The marker holds neither a space nor a newline. */
  lemma MarkerChars(s: string, k: nat, i: nat)
    requires OccursAt(s, Marker, k) && k <= i < k + |Marker|
    ensures s[i] != ' ' && s[i] != '\n'
  {
    assert s[i] == s[k..k + 8][i - k];
  }

  /** Two occurrences of the marker never overlap: it has no proper prefix
      that is also a suffix. */
  lemma MarkerNoOverlap(s: string, k: nat, j: nat)
    requires OccursAt(s, Marker, k) && k < j < k + |Marker|
    ensures !OccursAt(s, Marker, j)
  {
    assert s[j] == s[k..k + 8][j - k];
    if j + 8 <= |s| {
      assert s[j..j + 8][0] == s[j];
      if j - k == 6 {
        assert s[j + 1] == s[k..k + 8][7] == ':';
        assert s[j..j + 8][1] == s[j + 1];
      }
    }
  }

  /** A marker cannot start before `k` in a string that has a space at
      `k - 1` and agrees before that with a string whose first marker is at
      `k` or later. */
  lemma NoMarkerBeforeSpace(s: string, t: string, k: nat, j: nat)
    requires 1 <= k <= |s| && k <= |t| && t[..k - 1] == s[..k - 1] && t[k - 1] == ' '
    requires forall i: nat :: i < k ==> !OccursAt(s, Marker, i)
    requires j < k
    ensures !OccursAt(t, Marker, j)
  {
    if j + 8 <= k - 1 {
      assert t[j..j + 8] == t[..k - 1][j..j + 8] == s[..k - 1][j..j + 8] == s[j..j + 8];
      assert !OccursAt(s, Marker, j);
    } else if j + 8 <= |t| {
      assert t[j..j + 8][k - 1 - j] == t[k - 1];
    }
  }

  /** When the first marker follows a newline, the first `"\nSOURCES:"`
      is that newline and marker. */
  lemma NewlineMarkerFirst(s: string, k: nat)
    requires IndexOf(s, Marker) == Some(k) && k >= 1 && s[k - 1] == '\n'
    ensures IndexOf(s, NewlineMarker) == Some(k - 1)
  {
    assert s[k - 1..k + 8] == [s[k - 1]] + s[k..k + 8];
    forall j: nat | j < k - 1 ensures !OccursAt(s, NewlineMarker, j) {
      NewlineMarkerAt(s, j);
    }
    IndexOfIs(s, NewlineMarker, k - 1);
  }

  /** Turning the newline before the first marker into a space keeps that
      marker the first one. */
  lemma MarkerAfterSpace(s: string, t: string, k: nat)
    requires IndexOf(s, Marker) == Some(k) && k >= 1
    requires k + 8 <= |t| && t[..k + 8] == s[..k - 1] + SpaceMarker
    ensures IndexOf(t, Marker) == Some(k)
  {
    assert t[k - 1] == t[..k + 8][k - 1] == ' ';
    assert t[k..k + 8] == t[..k + 8][k..] == SpaceMarker[1..];
    assert t[..k - 1] == t[..k + 8][..k - 1];
    forall j: nat | j < k ensures !OccursAt(t, Marker, j) {
      NoMarkerBeforeSpace(s, t, k, j);
    }
    IndexOfIs(t, Marker, k);
  }

  /** The first replacement when the first marker follows a newline: that
      newline becomes a space and the first marker stays where it was. */
  lemma FirstReplaceAtNewline(s: string, k: nat)
    requires IndexOf(s, Marker) == Some(k) && k >= 1 && s[k - 1] == '\n'
    ensures Before(Replace(s, NewlineMarker, SpaceMarker), Marker) == s[..k - 1] + [' ']
  {
    NewlineMarkerFirst(s, k);
    var t := Replace(s, NewlineMarker, SpaceMarker);
    ReplaceAt(s, NewlineMarker, SpaceMarker, k - 1);
    MarkerAfterSpace(s, t, k);
    BeforeAt(t, Marker, k);
    assert t[..k] == t[..k + 8][..k];
  }

  /** When the first marker does not follow a newline, no `"\nSOURCES:"`
      starts before the end of that marker. */
  lemma NoNewlineMarkerUpTo(s: string, k: nat)
    requires IndexOf(s, Marker) == Some(k) && !(k >= 1 && s[k - 1] == '\n')
    ensures forall j: nat :: j < k + 8 ==> !OccursAt(s, NewlineMarker, j)
  {
    forall j: nat | j < k + 8 ensures !OccursAt(s, NewlineMarker, j) {
      NewlineMarkerAt(s, j);
      if k <= j {
        MarkerChars(s, k, j);
      }
    }
  }

  /** The first replacement when the first marker does not follow a newline:
      everything up to the end of that marker is left alone. */
  lemma FirstReplaceElsewhere(s: string, k: nat)
    requires IndexOf(s, Marker) == Some(k) && !(k >= 1 && s[k - 1] == '\n')
    ensures Before(Replace(s, NewlineMarker, SpaceMarker), Marker) == s[..k]
  {
    assert OccursAt(s, Marker, k);
    NoNewlineMarkerUpTo(s, k);
    ReplaceKeepsPrefix(s, NewlineMarker, SpaceMarker, k + 8);
    BeforeFromPrefix(s, Replace(s, NewlineMarker, SpaceMarker), Marker, k, k + 8);
  }

  /** Without a marker there is no `"\nSOURCES:"` to replace. */
  lemma FirstReplaceNoMarker(s: string)
    requires IndexOf(s, Marker).None?
    ensures Replace(s, NewlineMarker, SpaceMarker) == s
  {
    forall j: nat ensures !OccursAt(s, NewlineMarker, j) {
      NewlineMarkerAt(s, j);
    }
    assert !Contains(s, NewlineMarker);
  }

  /** The text before the first marker after the first replacement: the same
      text, except that a newline ending it becomes a space. */
  lemma FirstReplaceBefore(s: string)
    ensures var b := Before(s, Marker);
      Before(Replace(s, NewlineMarker, SpaceMarker), Marker)
      == if b != s && |b| > 0 && b[|b| - 1] == '\n' then b[..|b| - 1] + [' '] else b
  {
    match IndexOf(s, Marker)
    case None =>
      FirstReplaceNoMarker(s);
    case Some(k) =>
      BeforeAt(s, Marker, k);
      if k >= 1 && s[k - 1] == '\n' {
        FirstReplaceAtNewline(s, k);
        SliceOfPrefix(s, k, 0, k - 1);
      } else {
        FirstReplaceElsewhere(s, k);
      }
  }

  /** The second replacement when the first marker is followed by a newline:
      the marker stays and only the newline after it changes. */
  lemma SecondReplaceAtMarker(t: string, k: nat)
    requires IndexOf(t, Marker) == Some(k) && OccursAt(t, MarkerNewline, k)
    ensures Before(Replace(t, MarkerNewline, MarkerSpace), Marker) == t[..k]
  {
    var u := Replace(t, MarkerNewline, MarkerSpace);
    forall j: nat | j < k ensures !OccursAt(t, MarkerNewline, j) {
      MarkerNewlineAt(t, j);
    }
    IndexOfIs(t, MarkerNewline, k);
    ReplaceAt(t, MarkerNewline, MarkerSpace, k);
    assert u[..k + 8] == u[..k + 9][..k + 8] == t[..k] + Marker;
    assert t[..k + 8] == t[..k] + t[k..k + 8];
    BeforeFromPrefix(t, u, Marker, k, k + 8);
  }

  /** The second replacement when the first marker is not followed by a
      newline: everything up to the end of that marker is left alone. */
  lemma SecondReplaceElsewhere(t: string, k: nat)
    requires IndexOf(t, Marker) == Some(k) && !OccursAt(t, MarkerNewline, k)
    ensures Before(Replace(t, MarkerNewline, MarkerSpace), Marker) == t[..k]
  {
    assert OccursAt(t, Marker, k);
    forall j: nat | j < k + 8 ensures !OccursAt(t, MarkerNewline, j) {
      MarkerNewlineAt(t, j);
      if k < j {
        MarkerNoOverlap(t, k, j);
      }
    }
    ReplaceKeepsPrefix(t, MarkerNewline, MarkerSpace, k + 8);
    BeforeFromPrefix(t, Replace(t, MarkerNewline, MarkerSpace), Marker, k, k + 8);
  }

  /** The second replacement never changes the text before the first
      marker. */
  lemma SecondReplaceBefore(t: string)
    ensures Before(Replace(t, MarkerNewline, MarkerSpace), Marker) == Before(t, Marker)
  {
    match IndexOf(t, Marker)
    case None =>
      forall j: nat ensures !OccursAt(t, MarkerNewline, j) {
        MarkerNewlineAt(t, j);
      }
      assert !Contains(t, MarkerNewline);
    case Some(k) =>
      BeforeAt(t, Marker, k);
      if OccursAt(t, MarkerNewline, k) {
        SecondReplaceAtMarker(t, k);
      } else {
        SecondReplaceElsewhere(t, k);
      }
  }

  /** The newline normalisation never changes the answer: it is the text
      before the first marker of the raw response, stripped. */
  lemma NormalisationInvisible(s: string)
    ensures ExtractAnswerWithoutSources(s) == Strip(Before(s, Marker))
  {
    var b := Before(s, Marker);
    if b != s && |b| > 0 && b[|b| - 1] == '\n' {
      var a := b[..|b| - 1];
      StripTrailingSpace(a, ' ');
      StripTrailingSpace(a, '\n');
      FrontLast(b);
    }
  }

  /** Without a marker, the answer is the whole response, stripped. */
  lemma NoMarkerMeansStrip(s: string)
    requires !Contains(s, Marker)
    ensures ExtractAnswerWithoutSources(s) == Strip(s)
  {
    NormalisationInvisible(s);
    assert Before(s, Marker) == s by {
      assert !OccursAt(s, Marker, |Before(s, Marker)|);
    }
  }

  /** Extracting twice gives the same answer as extracting once. */
  lemma Idempotent(s: string)
    ensures ExtractAnswerWithoutSources(ExtractAnswerWithoutSources(s))
         == ExtractAnswerWithoutSources(s)
  {
    var r := ExtractAnswerWithoutSources(s);
    NoMarkerMeansStrip(r);
    StripStripped(r);
  }

  /** An answer followed by a newline, the marker and a source listing
      gives back the answer, stripped. */
  lemma AnswerThenMarker(a: string, tail: string)
    requires !Contains(a, Marker)
    ensures ExtractAnswerWithoutSources(a + "\n" + Marker + tail) == Strip(a)
  {
    var head := a + "\n";
    var s := head + Marker + tail;
    var k := |head|;
    assert s[..k] == head && s[k..k + 8] == Marker;
    forall j: nat | j < k ensures !OccursAt(s, Marker, j) {
      if j + 8 <= |a| {
        assert s[j..j + 8] == a[j..j + 8];
        assert !OccursAt(a, Marker, j);
      } else if OccursAt(s, Marker, j) {
        MarkerChars(s, j, |a|);
      }
    }
    IndexOfIs(s, Marker, k);
    BeforeAt(s, Marker, k);
    NormalisationInvisible(s);
    StripTrailingSpace(a, '\n');
  }

  /** A response with a marker on its own line keeps only the sentence
      before it. */
  lemma ExampleCatSat(s: string)
    requires s == "The cat sat.\nSOURCES:\ndoc.pdf page 1"
    ensures ExtractAnswerWithoutSources(s) == "The cat sat."
  {
    CatSatSentence("The cat sat.");
    AnswerThenMarker("The cat sat.", "\ndoc.pdf page 1");
    CatSatPieces();
  }

  /** The example's sentence holds no marker and no surrounding space. */
  lemma CatSatSentence(a: string)
    requires a == "The cat sat."
    ensures !Contains(a, Marker) && Strip(a) == a
  {
    assert 'S' !in a;
    forall j: nat | j + 8 <= |a| ensures !OccursAt(a, Marker, j) {
      assert a[j..j + 8][0] == a[j];
    }
    StripStripped(a);
  }

  /** The example response, cut where the marker starts and ends. */
  lemma CatSatPieces()
    ensures "The cat sat." + "\n" + Marker + "\ndoc.pdf page 1" == "The cat sat.\nSOURCES:\ndoc.pdf page 1"
  {
  }
}
