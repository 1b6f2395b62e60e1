/** `extract_logic` (app.py:32-54): OCR fragments in, one meter reading or
    the sentinel "Cek Foto" out. */
module Extract {
  import opened Chars
  import opened Normalize
  import opened Scan
  import opened Select

  /** Returned when no candidate survives ("check the photo"). */
  const Sentinel: string := "Cek Foto"

  /** `valid` before it is sorted: the candidates of the normalised text
      whose digits are not all the same, in order of position. */
  function Survivors(text: string): (valid: seq<string>)
    ensures forall c :: c in valid <==> c in Candidates(text) && Varied(c)
    ensures forall k :: 0 <= k < |valid| ==> IsReading(valid[k])
  {
    var cs := Candidates(text);
    assert forall c :: c in cs ==> IsReading(c) by {
      forall c | c in cs ensures IsReading(c) {
        var k :| 0 <= k < |cs| && cs[k] == c;
      }
    }
    KeepVaried(cs)
  }

  lemma SurvivorShape(text: string, c: string)
    requires c in Survivors(text)
    ensures IsReading(c) && Varied(c)
    ensures 5 <= |c| <= 12
    ensures c != Sentinel
  {
    var cs := Candidates(text);
    var i :| 0 <= i < |cs| && cs[i] == c;
    ReadingShape(c);
    NonDigitStartIsNotReading(Sentinel);
  }

  /** `extract_logic` from the point where `full_text` is ready: filter,
      sort longest first, take the head or the sentinel. The result is the
      sentinel exactly when no candidate survives; otherwise it is a
      reading of 5 to 12 characters with two different digits, the longest
      survivor, and the first one of that length. */
  function ExtractFrom(fullText: string): (r: string)
    ensures r == Sentinel || (IsReading(r) && 5 <= |r| <= 12 && Varied(r))
    ensures r == Sentinel <==> Survivors(fullText) == []
    ensures r != Sentinel ==>
      exists k :: IsFirstLongest(Survivors(fullText), k) && r == Survivors(fullText)[k]
  {
    var valid := KeepVaried(Candidates(fullText));
    var sorted := SortByLengthDesc(valid);
    if |sorted| > 0 then
      SortHeadIsFirstLongest(valid);
      assert sorted[0] in multiset(valid);
      SurvivorShape(fullText, sorted[0]);
      sorted[0]
    else
      Sentinel
  }

  /** The whole of `extract_logic`: the properties of `ExtractFrom`, for
      the normalised text of the fragments. */
  function ExtractLogic(fragments: seq<string>): (r: string)
    ensures r == Sentinel || (IsReading(r) && 5 <= |r| <= 12 && Varied(r))
    ensures r == Sentinel <==> Survivors(FullText(fragments)) == []
    ensures r != Sentinel ==>
      exists k :: IsFirstLongest(Survivors(FullText(fragments)), k) && r == Survivors(FullText(fragments))[k]
  {
    ExtractFrom(FullText(fragments))
  }

  /** A non-sentinel result is a slice of the normalised text. */
  lemma ResultIsSlice(text: string)
    ensures ExtractFrom(text) != Sentinel ==>
      exists a, b :: 0 <= a < b <= |text| && ExtractFrom(text) == text[a..b]
  {
    var r := ExtractFrom(text);
    if r != Sentinel {
      var sv := Survivors(text);
      var k :| IsFirstLongest(sv, k) && r == sv[k];
      assert r in sv;
      var spans := ScanFrom(text, 0);
      var cs := Candidates(text);
      var i :| 0 <= i < |cs| && cs[i] == r;
      assert r == text[spans[i].start..spans[i].end];
    }
  }

  /** The spans whose text passes the filter, in their order. */
  function SurvivingSpans(text: string, spans: seq<Span>): (kept: seq<Span>)
    requires SpansWithin(text, spans)
    ensures SpansWithin(text, kept)
    ensures forall x :: x in kept ==> x in spans
    decreases |spans|
  {
    if |spans| == 0 then []
    else
      var x := spans[0];
      var rest := SurvivingSpans(text, spans[1..]);
      if Varied(text[x.start..x.end]) then [x] + rest else rest
  }

  lemma {:induction false} SurvivingSpansMembers(text: string, spans: seq<Span>, x: Span)
    requires SpansWithin(text, spans)
    ensures x in SurvivingSpans(text, spans) <==> x in spans && Varied(text[x.start..x.end])
    decreases |spans|
  {
    if |spans| > 0 {
      SurvivingSpansMembers(text, spans[1..], x);
      assert spans == [spans[0]] + spans[1..];
    }
  }

  lemma {:induction false} SurvivingSpansOrdered(text: string, spans: seq<Span>)
    requires SpansWithin(text, spans) && Ordered(spans)
    ensures Ordered(SurvivingSpans(text, spans))
    decreases |spans|
  {
    if |spans| > 0 {
      var x := spans[0];
      var rest := SurvivingSpans(text, spans[1..]);
      SurvivingSpansOrdered(text, spans[1..]);
      forall y | y in rest ensures x.end <= y.start {
        var j :| 0 <= j < |spans[1..]| && spans[1..][j] == y;
        assert spans[j + 1] == y;
      }
    }
  }

  lemma {:induction false} SurvivingSpansTexts(text: string, spans: seq<Span>)
    requires SpansWithin(text, spans)
    ensures Texts(text, SurvivingSpans(text, spans)) == KeepVaried(Texts(text, spans))
    decreases |spans|
  {
    if |spans| > 0 {
      var x := spans[0];
      var rest := SurvivingSpans(text, spans[1..]);
      SurvivingSpansTexts(text, spans[1..]);
      assert Texts(text, spans)[1..] == Texts(text, spans[1..]);
      if Varied(text[x.start..x.end]) {
        assert ([x] + rest)[1..] == rest;
      }
    }
  }

  /** In an ordered list of spans, the first longest is also the earliest
      in the text among the longest. */
  lemma FirstLongestIsEarliest(text: string, spans: seq<Span>, k: nat)
    requires SpansWithin(text, spans) && Ordered(spans)
    requires IsFirstLongest(Texts(text, spans), k)
    ensures forall j :: 0 <= j < |spans| ==> spans[j].end - spans[j].start <= spans[k].end - spans[k].start
    ensures forall j :: 0 <= j < |spans| && spans[j].start < spans[k].start ==>
              spans[j].end - spans[j].start < spans[k].end - spans[k].start
  {
    var ts := Texts(text, spans);
    forall j | 0 <= j < |spans| && spans[j].start < spans[k].start
      ensures spans[j].end - spans[j].start < spans[k].end - spans[k].start
    {
      assert |ts[j]| < |ts[k]|;
    }
    forall j | 0 <= j < |spans|
      ensures spans[j].end - spans[j].start <= spans[k].end - spans[k].start
    {
      assert |ts[j]| <= |ts[k]|;
    }
  }

  /** The surviving spans are exactly the matches whose text passes the
      filter, in text order, and their texts are `valid`. */
  lemma SurvivingSpansOfText(text: string)
    ensures var spans := SurvivingSpans(text, ScanFrom(text, 0));
      && Ordered(spans)
      && (forall x :: x in spans <==> x in ScanFrom(text, 0) && Varied(text[x.start..x.end]))
      && Texts(text, spans) == Survivors(text)
  {
    var all := ScanFrom(text, 0);
    var spans := SurvivingSpans(text, all);
    SurvivingSpansOrdered(text, all);
    forall x ensures x in spans <==> x in all && Varied(text[x.start..x.end]) {
      SurvivingSpansMembers(text, all, x);
    }
    SurvivingSpansTexts(text, all);
  }

  /** The first longest survivor, located among the surviving spans. */
  lemma LocateFirstLongest(text: string, r: string, k: nat)
    requires IsFirstLongest(Survivors(text), k) && r == Survivors(text)[k]
    ensures var spans := SurvivingSpans(text, ScanFrom(text, 0));
      && 0 <= k < |spans| && r == text[spans[k].start..spans[k].end]
      && (forall j :: 0 <= j < |spans| ==> spans[j].end - spans[j].start <= |r|)
      && (forall j :: 0 <= j < |spans| && spans[j].start < spans[k].start ==>
            spans[j].end - spans[j].start < |r|)
  {
    var spans := SurvivingSpans(text, ScanFrom(text, 0));
    SurvivingSpansOfText(text);
    FirstLongestIsEarliest(text, spans, k);
  }

  /** The reading returned is the text of a surviving match, no surviving
      match is longer, and every surviving match that starts earlier in
      the text is strictly shorter. */
  lemma ExtractIsEarliestLongest(text: string)
    ensures var spans := SurvivingSpans(text, ScanFrom(text, 0));
      ExtractFrom(text) != Sentinel ==>
        exists k :: 0 <= k < |spans| && ExtractFrom(text) == text[spans[k].start..spans[k].end] &&
          (forall j :: 0 <= j < |spans| ==> spans[j].end - spans[j].start <= |ExtractFrom(text)|) &&
          (forall j :: 0 <= j < |spans| && spans[j].start < spans[k].start ==>
             spans[j].end - spans[j].start < |ExtractFrom(text)|)
  {
    var r := ExtractFrom(text);
    if r != Sentinel {
      var k :| IsFirstLongest(Survivors(text), k) && r == Survivors(text)[k];
      LocateFirstLongest(text, r, k);
    }
  }

  lemma ReadingSliceWithinOneFragment(fragments: seq<string>, a: nat, b: nat)
    requires a <= b <= |FullText(fragments)| && IsReading(FullText(fragments)[a..b])
    ensures exists k, c, d :: 0 <= k < |fragments| && 0 <= c <= d <= |FullText([fragments[k]])| &&
              FullText(fragments)[a..b] == FullText([fragments[k]])[c..d]
  {
    var text := FullText(fragments);
    var r := text[a..b];
    ReadingShape(r);
    forall i | a <= i < b ensures text[i] != ' ' {
      assert text[i] == r[i - a];
    }
    SpaceFreeSliceOfFullText(fragments, a, b);
  }

  /** A reading never straddles two fragments: it lies inside the
      normalised text of a single fragment. */
  lemma ResultWithinOneFragment(fragments: seq<string>)
    ensures ExtractLogic(fragments) != Sentinel ==>
      exists k, c, d :: 0 <= k < |fragments| && 0 <= c <= d <= |FullText([fragments[k]])| &&
        ExtractLogic(fragments) == FullText([fragments[k]])[c..d]
  {
    var text := FullText(fragments);
    var r := ExtractFrom(text);
    if r != Sentinel {
      ResultIsSlice(text);
      var a, b :| 0 <= a < b <= |text| && r == text[a..b];
      ReadingSliceWithinOneFragment(fragments, a, b);
    }
  }

  /** Five digits in a row start at `p`. */
  predicate FiveDigitsAt(text: string, p: nat) {
    p + 5 <= |text| && AllDigits(text[p..p + 5])
  }

  lemma ReadingStartsWithFiveDigits(text: string, a: nat, b: nat)
    requires a <= b <= |text| && IsReading(text[a..b])
    ensures FiveDigitsAt(text, a)
  {
    var u, w := text[a..b], text[a..a + 5];
    ReadingShape(u);
    forall i | 0 <= i < 5 ensures IsDigit(w[i]) {
      assert w[i] == u[i];
    }
  }

  /** Text with no run of five digits after normalisation gives the
      sentinel. */
  lemma NoFiveDigitRunGivesSentinel(text: string)
    requires forall p: nat :: !FiveDigitsAt(text, p)
    ensures ExtractFrom(text) == Sentinel
  {
    var r := ExtractFrom(text);
    if r != Sentinel {
      ResultIsSlice(text);
      var a, b :| 0 <= a < b <= |text| && r == text[a..b];
      ReadingStartsWithFiveDigits(text, a, b);
      assert false;
    }
  }

  /** No fragments at all give the sentinel. */
  lemma EmptyGivesSentinel()
    ensures ExtractLogic([]) == Sentinel
  {
    assert FullText([]) == "";
    NoFiveDigitRunGivesSentinel("");
  }

  /** Text whose digits are all one and the same digit (for instance
      `000000`) gives the sentinel: every candidate repeats that digit. */
  lemma OneDigitValueGivesSentinel(text: string, d: char)
    requires forall i :: 0 <= i < |text| && IsDigit(text[i]) ==> text[i] == d
    ensures ExtractFrom(text) == Sentinel
  {
    var r := ExtractFrom(text);
    if r != Sentinel {
      ResultIsSlice(text);
      var a, b :| 0 <= a < b <= |text| && r == text[a..b];
      ReadingShape(r);
      VariedIffTwoDistinct(r);
      assert false;
    }
  }
}
