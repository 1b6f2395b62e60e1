/** The candidate search of `extract_logic` (app.py:48):
    `re.findall(r'\d{5,8}(?:\.\d{1,3})?', full_text)`, as a left-to-right
    scan that tries a greedy match at each position and resumes after a
    match. */
module Scan {
  import opened Chars

  datatype Option<T> = None | Some(value: T)

  /** A candidate occupies `text[start..end]`. */
  datatype Span = Span(start: nat, end: nat)

  /** `\d{5,8}` */
  predicate IsIntPart(u: string) {
    5 <= |u| <= 8 && AllDigits(u)
  }

  /** `\d{1,3}` */
  predicate IsFracPart(u: string) {
    1 <= |u| <= 3 && AllDigits(u)
  }

  /** The strings the pattern `\d{5,8}(?:\.\d{1,3})?` matches as a whole:
      five to eight digits, optionally followed by a point and one to three
      digits. */
  predicate IsReading(t: string) {
    || IsIntPart(t)
    || exists k :: 0 <= k < |t| && t[k] == '.' && IsIntPart(t[..k]) && IsFracPart(t[k + 1..])
  }

  /** A reading is 5 to 12 characters long, starts with five digits and
      holds nothing but digits and at most one point. */
  lemma ReadingShape(t: string)
    requires IsReading(t)
    ensures 5 <= |t| <= 12
    ensures forall i :: 0 <= i < 5 ==> IsDigit(t[i])
    ensures forall i :: 0 <= i < |t| ==> IsDigit(t[i]) || t[i] == '.'
    ensures forall a, b :: 0 <= a < |t| && 0 <= b < |t| && t[a] == '.' && t[b] == '.' ==> a == b
  {
    if IsIntPart(t) {
      assert forall i :: 0 <= i < |t| ==> t[i] != '.';
    } else {
      var k :| 0 <= k < |t| && t[k] == '.' && IsIntPart(t[..k]) && IsFracPart(t[k + 1..]);
      forall i | 0 <= i < |t| ensures IsDigit(t[i]) || t[i] == '.'
        ensures t[i] == '.' ==> i == k
      {
        if i < k {
          assert t[i] == t[..k][i];
        } else if i > k {
          assert t[i] == t[k + 1..][i - k - 1];
        }
      }
      forall i | 0 <= i < 5 ensures IsDigit(t[i]) {
        assert t[i] == t[..k][i];
      }
    }
  }

  /** A text that does not start with a digit is not a reading. */
  lemma NonDigitStartIsNotReading(t: string)
    requires |t| > 0 && !IsDigit(t[0])
    ensures !IsReading(t)
  {
    if IsReading(t) {
      ReadingShape(t);
    }
  }

  /** The number of consecutive digits at `s[i..]`, at most `cap`: how far
      a greedy `\d{0,cap}` reaches from `i`. */
  function CountDigits(s: string, i: nat, cap: nat): (n: nat)
    requires i <= |s|
    ensures n <= cap && i + n <= |s|
    ensures forall j :: i <= j < i + n ==> IsDigit(s[j])
    ensures n < cap && i + n < |s| ==> !IsDigit(s[i + n])
    decreases cap
  {
    if cap == 0 || i == |s| || !IsDigit(s[i]) then 0
    else 1 + CountDigits(s, i + 1, cap - 1)
  }

  /** Every run of at most `cap` digits from `i` is covered by the count. */
  lemma CountDigitsCovers(s: string, i: nat, cap: nat, m: nat)
    requires i + m <= |s| && m <= cap
    requires forall j :: i <= j < i + m ==> IsDigit(s[j])
    ensures m <= CountDigits(s, i, cap)
  {
  }

  /** The count is exactly `n` when `n` digits follow `i` and the run then
      stops, reaches the end of the text, or reaches the cap. */
  lemma CountDigitsExact(s: string, i: nat, cap: nat, n: nat)
    requires i + n <= |s| && n <= cap
    requires forall j :: i <= j < i + n ==> IsDigit(s[j])
    requires n == cap || i + n == |s| || !IsDigit(s[i + n])
    ensures CountDigits(s, i, cap) == n
  {
    CountDigitsCovers(s, i, cap, n);
  }

  /** The end of the match the regular expression engine finds when it
      tries the pattern at position `i`, or None when the pattern does not
      match there. `\d{5,8}` takes as many digits as it can (up to eight);
      the optional group is taken only when a point is followed by a
      digit, and then takes up to three digits. */
  function MatchAt(s: string, i: nat): (m: Option<nat>)
    requires i <= |s|
    ensures m.Some? ==> i + 5 <= m.value <= |s|
  {
    var d := CountDigits(s, i, 8);
    if d < 5 then None
    else
      var j := i + d;
      if j + 1 < |s| && s[j] == '.' && IsDigit(s[j + 1]) then Some(j + 1 + CountDigits(s, j + 1, 3))
      else Some(j)
  }

  /** Some reading starts at position `p`. */
  ghost predicate ReadingStartsAt(s: string, p: nat) {
    exists e :: p <= e <= |s| && IsReading(s[p..e])
  }

  /** `s[p..e]` is the longest reading that starts at `p`. */
  ghost predicate LongestReadingAt(s: string, p: nat, e: nat) {
    && p <= e <= |s|
    && IsReading(s[p..e])
    && forall e' :: p <= e' <= |s| && IsReading(s[p..e']) ==> e' <= e
  }

  lemma IntPartBoundedByCount(s: string, i: nat, e: nat)
    requires i <= e <= |s| && IsIntPart(s[i..e])
    ensures 5 <= e - i <= CountDigits(s, i, 8)
  {
    var t := s[i..e];
    forall j | i <= j < e ensures IsDigit(s[j]) {
      assert s[j] == t[j - i];
    }
    CountDigitsCovers(s, i, 8, e - i);
  }

  lemma DottedBoundedByCount(s: string, i: nat, e: nat, k: nat)
    requires i + k < e <= |s|
    requires s[i + k] == '.' && IsIntPart(s[i..i + k]) && IsFracPart(s[i + k + 1..e])
    ensures CountDigits(s, i, 8) == k
    ensures i + k + 1 < |s| && IsDigit(s[i + k + 1])
    ensures e <= i + k + 1 + CountDigits(s, i + k + 1, 3)
  {
    var u, w := s[i..i + k], s[i + k + 1..e];
    forall j | i <= j < i + k ensures IsDigit(s[j]) {
      assert s[j] == u[j - i];
    }
    CountDigitsCovers(s, i, 8, k);
    forall j | i + k + 1 <= j < e ensures IsDigit(s[j]) {
      assert s[j] == w[j - i - k - 1];
    }
    assert IsDigit(w[0]);
    CountDigitsCovers(s, i + k + 1, 3, e - (i + k + 1));
  }

  lemma DottedSlices(s: string, i: nat, e: nat, k: nat)
    requires i <= e <= |s| && k < e - i
    requires s[i..e][k] == '.' && IsIntPart(s[i..e][..k]) && IsFracPart(s[i..e][k + 1..])
    ensures i + k < e && s[i + k] == '.' && IsIntPart(s[i..i + k]) && IsFracPart(s[i + k + 1..e])
  {
    assert s[i..e][..k] == s[i..i + k];
    assert s[i..e][k + 1..] == s[i + k + 1..e];
  }

  /** What a reading `s[i..e]` forces on the digits around it: at least
      five digits start at `i`, and the reading ends within the digit run or
      within the fraction that follows a point after it. */
  predicate ForcedByReading(s: string, i: nat, e: nat)
    requires i <= |s|
  {
    var d := CountDigits(s, i, 8);
    && 5 <= d
    && (e - i <= d
        || (&& i + d + 1 < |s| && s[i + d] == '.' && IsDigit(s[i + d + 1])
            && e <= i + d + 1 + CountDigits(s, i + d + 1, 3)))
  }

  lemma ReadingForcesDigits(s: string, i: nat, e: nat)
    requires i <= e <= |s| && IsReading(s[i..e])
    ensures ForcedByReading(s, i, e)
  {
    var t := s[i..e];
    if IsIntPart(t) {
      IntPartBoundedByCount(s, i, e);
    } else {
      var k :| 0 <= k < |t| && t[k] == '.' && IsIntPart(t[..k]) && IsFracPart(t[k + 1..]);
      DottedForcesDigits(s, i, e, k);
    }
  }

  lemma DottedForcesDigits(s: string, i: nat, e: nat, k: nat)
    requires i <= e <= |s| && k < e - i
    requires s[i..e][k] == '.' && IsIntPart(s[i..e][..k]) && IsFracPart(s[i..e][k + 1..])
    ensures ForcedByReading(s, i, e)
  {
    DottedSlices(s, i, e, k);
    DottedBoundedByCount(s, i, e, k);
  }

  /** The greedy match is itself a reading. */
  lemma MatchIsReading(s: string, i: nat)
    requires i <= |s| && MatchAt(s, i).Some?
    ensures IsReading(s[i..MatchAt(s, i).value])
  {
    var j := i + CountDigits(s, i, 8);
    if j + 1 < |s| && s[j] == '.' && IsDigit(s[j + 1]) {
      DottedMatchIsReading(s, i);
    } else {
      PlainMatchIsReading(s, i);
    }
  }

  /** A match that stops after its digits is a reading. */
  lemma PlainMatchIsReading(s: string, i: nat)
    requires i <= |s| && MatchAt(s, i).Some?
    requires var j := i + CountDigits(s, i, 8);
      !(j + 1 < |s| && s[j] == '.' && IsDigit(s[j + 1]))
    ensures IsReading(s[i..MatchAt(s, i).value])
  {
    var d := CountDigits(s, i, 8);
    var e := MatchAt(s, i).value;
    assert e == i + d;
    DigitsAreIntPart(s, i, d);
    IntPartIsReading(s[i..i + d]);
    assert s[i..e] == s[i..i + d];
  }

  /** A match that takes a fraction is a reading. */
  lemma DottedMatchIsReading(s: string, i: nat)
    requires i <= |s| && MatchAt(s, i).Some?
    requires var j := i + CountDigits(s, i, 8);
      j + 1 < |s| && s[j] == '.' && IsDigit(s[j + 1])
    ensures IsReading(s[i..MatchAt(s, i).value])
  {
    var d := CountDigits(s, i, 8);
    var c := CountDigits(s, i + d + 1, 3);
    var e := MatchAt(s, i).value;
    assert e == i + d + 1 + c;
    DigitsAreIntPart(s, i, d);
    DigitsAreFracPart(s, i + d + 1, c);
    DottedSliceIsReading(s, i, d, c);
    assert s[i..e] == s[i..i + d + 1 + c];
  }

  lemma IntPartIsReading(t: string)
    requires IsIntPart(t)
    ensures IsReading(t)
  {
  }

  /** An integer part at `s[i..i + d]`, a point and a fractional part at
      `s[i + d + 1..i + d + 1 + c]` make a reading. */
  lemma DottedSliceIsReading(s: string, i: nat, d: nat, c: nat)
    requires i + d + 1 + c <= |s| && s[i + d] == '.'
    requires IsIntPart(s[i..i + d]) && IsFracPart(s[i + d + 1..i + d + 1 + c])
    ensures IsReading(s[i..i + d + 1 + c])
  {
    var t := s[i..i + d + 1 + c];
    assert t[..d] == s[i..i + d];
    assert t[d + 1..] == s[i + d + 1..i + d + 1 + c];
    DottedIsReading(t, d);
  }

  /** Five to eight digits counted at `i` form an integer part. */
  lemma DigitsAreIntPart(s: string, i: nat, d: nat)
    requires i <= |s| && d == CountDigits(s, i, 8) && 5 <= d
    ensures IsIntPart(s[i..i + d])
  {
    var u := s[i..i + d];
    forall x | 0 <= x < d ensures IsDigit(u[x]) {
      assert u[x] == s[i + x];
    }
  }

  /** One to three digits counted at `i` form a fractional part. */
  lemma DigitsAreFracPart(s: string, i: nat, c: nat)
    requires i < |s| && IsDigit(s[i]) && c == CountDigits(s, i, 3)
    ensures IsFracPart(s[i..i + c])
  {
    var w := s[i..i + c];
    forall x | 0 <= x < c ensures IsDigit(w[x]) {
      assert w[x] == s[i + x];
    }
  }

  /** An integer part, a point and a fractional part make a reading. */
  lemma DottedIsReading(t: string, d: nat)
    requires d < |t| && t[d] == '.'
    requires IsIntPart(t[..d]) && IsFracPart(t[d + 1..])
    ensures IsReading(t)
  {
  }

  /** The greedy match at `i` is exactly the longest reading starting at
      `i`, and there is no match exactly when no reading starts there:
      for this pattern the engine's first-found match is the longest. */
  lemma MatchAtIsLongestReading(s: string, i: nat)
    requires i <= |s|
    ensures MatchAt(s, i).Some? ==> LongestReadingAt(s, i, MatchAt(s, i).value)
    ensures MatchAt(s, i).None? <==> !ReadingStartsAt(s, i)
  {
    forall e' | i <= e' <= |s| && IsReading(s[i..e'])
      ensures MatchAt(s, i).Some? && e' <= MatchAt(s, i).value
    {
      ReadingForcesDigits(s, i, e');
    }
    if MatchAt(s, i).Some? {
      MatchIsReading(s, i);
      assert ReadingStartsAt(s, i);
    }
  }

  /** Each span ends before the next one starts. */
  predicate Ordered(spans: seq<Span>) {
    forall a, b :: 0 <= a < b < |spans| ==> spans[a].end <= spans[b].start
  }

  /** `re.findall` from position `i`: the spans of all leftmost,
      non-overlapping matches, in order. */
  function ScanFrom(s: string, i: nat): (spans: seq<Span>)
    requires i <= |s|
    ensures forall k :: 0 <= k < |spans| ==> i <= spans[k].start < spans[k].end <= |s|
    ensures Ordered(spans)
    decreases |s| - i
  {
    if i == |s| then []
    else
      match MatchAt(s, i)
      case Some(e) => [Span(i, e)] + ScanFrom(s, e)
      case None => ScanFrom(s, i + 1)
  }

  /** Every span the scan reports covers a reading. */
  lemma {:induction false} ScanFromReadings(s: string, i: nat)
    requires i <= |s|
    ensures forall k :: 0 <= k < |ScanFrom(s, i)| ==>
      IsReading(s[ScanFrom(s, i)[k].start..ScanFrom(s, i)[k].end])
    decreases |s| - i
  {
    if i < |s| {
      match MatchAt(s, i)
      case Some(e) =>
        MatchIsReading(s, i);
        ScanFromReadings(s, e);
        var spans := ScanFrom(s, i);
        assert spans[1..] == ScanFrom(s, e);
        forall k | 0 < k < |spans|
          ensures IsReading(s[spans[k].start..spans[k].end])
        {
          assert spans[k] == ScanFrom(s, e)[k - 1];
        }
      case None =>
        ScanFromReadings(s, i + 1);
    }
  }

  /** No reading starts anywhere in `[a, b)`. */
  ghost predicate NoReadingIn(s: string, a: nat, b: nat) {
    forall p :: a <= p < b ==> !ReadingStartsAt(s, p)
  }

  /** The result `findall` must have, stated without the scan: the first
      span starts at the leftmost position from `i` where a reading starts,
      covers the longest reading there, and the remaining spans are the
      same search resumed at its end; when no reading starts anywhere, the
      result is empty. */
  ghost predicate IsFindAll(s: string, i: nat, spans: seq<Span>)
    decreases |spans|
  {
    if |spans| == 0 then NoReadingIn(s, i, |s|)
    else
      && i <= spans[0].start
      && NoReadingIn(s, i, spans[0].start)
      && LongestReadingAt(s, spans[0].start, spans[0].end)
      && IsFindAll(s, spans[0].end, spans[1..])
  }

  lemma SkipNonStart(s: string, i: nat, spans: seq<Span>)
    requires !ReadingStartsAt(s, i)
    requires IsFindAll(s, i + 1, spans)
    ensures IsFindAll(s, i, spans)
  {
  }

  lemma {:induction false} ScanFromIsFindAll(s: string, i: nat)
    requires i <= |s|
    ensures IsFindAll(s, i, ScanFrom(s, i))
    decreases |s| - i
  {
    var spans := ScanFrom(s, i);
    MatchAtIsLongestReading(s, i);
    if i == |s| {
      assert NoReadingIn(s, i, |s|);
    } else if MatchAt(s, i).Some? {
      var e := MatchAt(s, i).value;
      ScanFromIsFindAll(s, e);
      assert spans[0] == Span(i, e) && spans[1..] == ScanFrom(s, e);
    } else {
      ScanFromIsFindAll(s, i + 1);
      SkipNonStart(s, i, spans);
    }
  }

  lemma {:induction false} FindAllIsUnique(s: string, i: nat, a: seq<Span>, b: seq<Span>)
    requires IsFindAll(s, i, a) && IsFindAll(s, i, b)
    ensures a == b
    decreases |a|
  {
    if |a| > 0 && |b| > 0 {
      var x, y := a[0], b[0];
      assert ReadingStartsAt(s, x.start);
      assert ReadingStartsAt(s, y.start);
      assert x.start == y.start;
      assert x.end == y.end;
      FindAllIsUnique(s, x.end, a[1..], b[1..]);
    } else if |a| > 0 {
      assert ReadingStartsAt(s, a[0].start);
    } else if |b| > 0 {
      assert ReadingStartsAt(s, b[0].start);
    }
  }

  /** The scan computes `findall` and nothing else: a list of spans is the
      scan's result exactly when it is the leftmost-longest tiling. */
  lemma ScanIsFindAll(s: string, i: nat, spans: seq<Span>)
    requires i <= |s|
    ensures ScanFrom(s, i) == spans <==> IsFindAll(s, i, spans)
  {
    ScanFromIsFindAll(s, i);
    if IsFindAll(s, i, spans) {
      FindAllIsUnique(s, i, ScanFrom(s, i), spans);
    }
  }

  predicate SpansWithin(s: string, spans: seq<Span>) {
    forall k :: 0 <= k < |spans| ==> spans[k].start <= spans[k].end <= |s|
  }

  /** The substrings the spans cover. */
  function Texts(s: string, spans: seq<Span>): (ts: seq<string>)
    requires SpansWithin(s, spans)
    ensures |ts| == |spans|
    ensures forall k :: 0 <= k < |spans| ==> ts[k] == s[spans[k].start..spans[k].end]
    decreases |spans|
  {
    if |spans| == 0 then []
    else [s[spans[0].start..spans[0].end]] + Texts(s, spans[1..])
  }

  /** `pattern` in the source: the matched strings, in order of position. */
  function Candidates(s: string): (cs: seq<string>)
    ensures forall k :: 0 <= k < |cs| ==> IsReading(cs[k])
  {
    ScanFromReadings(s, 0);
    Texts(s, ScanFrom(s, 0))
  }

  /** How a text made only of digits is cut: eight-digit pieces from the
      left, then the rest if it still has five digits. */
  function Chunks(s: string): seq<string>
    decreases |s|
  {
    if |s| >= 8 then [s[..8]] + Chunks(s[8..])
    else if |s| >= 5 then [s]
    else []
  }

  lemma {:induction false} ShortTailHasNoMatch(s: string, i: nat)
    requires i <= |s| < i + 5
    ensures ScanFrom(s, i) == []
    decreases |s| - i
  {
    if i < |s| {
      ShortTailHasNoMatch(s, i + 1);
    }
  }

  /** A run of digits `s[i..j]` that ends the text, or is followed by
      something other than a digit or a point-and-digit: no reading ends
      inside it by taking characters past `j`. */
  predicate RunEndsAt(s: string, i: nat, j: nat) {
    && i <= j <= |s|
    && (forall k :: i <= k < j ==> IsDigit(s[k]))
    && (j == |s| || (!IsDigit(s[j]) && !(s[j] == '.' && j + 1 < |s| && IsDigit(s[j + 1]))))
  }

  /** One step of the scan: a match at `i` contributes its text and the
      scan resumes at its end. */
  lemma ScanStep(s: string, i: nat, e: nat)
    requires i < |s| && MatchAt(s, i) == Some(e)
    ensures Texts(s, ScanFrom(s, i)) == [s[i..e]] + Texts(s, ScanFrom(s, e))
  {
    var spans := ScanFrom(s, i);
    assert spans == [Span(i, e)] + ScanFrom(s, e);
    assert spans[1..] == ScanFrom(s, e);
  }

  /** The first eight digits of a longer run are cut off as one piece. */
  lemma ChunkSplit(s: string, i: nat, j: nat)
    requires i + 8 <= j <= |s|
    ensures Chunks(s[i..j]) == [s[i..i + 8]] + Chunks(s[i + 8..j])
  {
    assert s[i..j][..8] == s[i..i + 8];
    assert s[i..j][8..] == s[i + 8..j];
  }

  /** A run of fewer than five digits holds no match: the scan passes over
      it to the character after it. */
  lemma {:induction false} NoMatchInShortRun(s: string, i: nat, j: nat)
    requires RunEndsAt(s, i, j) && j < i + 5
    ensures ScanFrom(s, i) == ScanFrom(s, j)
    decreases j - i
  {
    if i < j {
      CountDigitsExact(s, i, 8, j - i);
      assert MatchAt(s, i) == None;
      assert RunEndsAt(s, i + 1, j);
      NoMatchInShortRun(s, i + 1, j);
    }
  }

  /** A run of five to eight digits is one match, and the scan resumes
      after it. */
  lemma MidRunIsOneMatch(s: string, i: nat, j: nat)
    requires RunEndsAt(s, i, j) && i + 5 <= j <= i + 8
    ensures Texts(s, ScanFrom(s, i)) == [s[i..j]] + Texts(s, ScanFrom(s, j))
  {
    CountDigitsExact(s, i, 8, j - i);
    assert MatchAt(s, i) == Some(j);
    ScanStep(s, i, j);
  }

  /** A run of more than eight digits yields its first eight as a match,
      and the rest is again such a run. */
  lemma LongRunFirstMatch(s: string, i: nat, j: nat)
    requires RunEndsAt(s, i, j) && i + 8 < j
    ensures Texts(s, ScanFrom(s, i)) == [s[i..i + 8]] + Texts(s, ScanFrom(s, i + 8))
    ensures RunEndsAt(s, i + 8, j)
  {
    CountDigitsExact(s, i, 8, 8);
    assert MatchAt(s, i) == Some(i + 8);
    ScanStep(s, i, i + 8);
  }

  /** Once the scan reaches the first digit of a maximal run, the run is
      cut into eight-digit pieces from the left, then the rest if it still
      has five digits, and the scan carries on after the run.
      `RunChunksInCandidates` shows when the scan from the start of the
      text reaches the run. */
  lemma {:induction false} DigitRunChunksAt(s: string, i: nat, j: nat)
    requires RunEndsAt(s, i, j)
    ensures Texts(s, ScanFrom(s, i)) == Chunks(s[i..j]) + Texts(s, ScanFrom(s, j))
    decreases j - i
  {
    if j < i + 5 {
      NoMatchInShortRun(s, i, j);
      assert Chunks(s[i..j]) == [];
    } else if j <= i + 8 {
      MidRunIsOneMatch(s, i, j);
      MidRunChunk(s, i, j);
    } else {
      LongRunFirstMatch(s, i, j);
      DigitRunChunksAt(s, i + 8, j);
      LongRunChunks(s, i, j);
    }
  }

  lemma LongRunChunks(s: string, i: nat, j: nat)
    requires i + 8 < j <= |s|
    requires Texts(s, ScanFrom(s, i)) == [s[i..i + 8]] + Texts(s, ScanFrom(s, i + 8))
    requires Texts(s, ScanFrom(s, i + 8)) == Chunks(s[i + 8..j]) + Texts(s, ScanFrom(s, j))
    ensures Texts(s, ScanFrom(s, i)) == Chunks(s[i..j]) + Texts(s, ScanFrom(s, j))
  {
    ChunkSplit(s, i, j);
    Associate([s[i..i + 8]], Chunks(s[i + 8..j]), Texts(s, ScanFrom(s, j)));
  }

  /** Five to eight digits are one piece. */
  lemma MidRunChunk(s: string, i: nat, j: nat)
    requires i + 5 <= j <= i + 8 && j <= |s|
    ensures Chunks(s[i..j]) == [s[i..j]]
  {
    if j == i + 8 {
      ChunkSplit(s, i, j);
      assert Chunks(s[i + 8..j]) == [];
    }
  }

  /** `s[p - 1]` cannot be part of a reading: it is neither a digit nor a
      point. */
  predicate SeparatorBefore(s: string, p: nat)
    requires 0 < p <= |s|
  {
    !IsDigit(s[p - 1]) && s[p - 1] != '.'
  }

  /** `b` is the tail of `a`. */
  predicate EndsWith(a: seq<Span>, b: seq<Span>) {
    |b| <= |a| && a[|a| - |b|..] == b
  }

  /** No match can run across a separator: the scan started at `i` comes
      to position `p` when `p` is `i` or follows a separator, so its result
      ends with the scan started at `p`. */
  lemma {:induction false} ScanPassesThrough(s: string, i: nat, p: nat)
    requires i <= p <= |s|
    requires p == i || SeparatorBefore(s, p)
    ensures EndsWith(ScanFrom(s, i), ScanFrom(s, p))
    decreases |s| - i
  {
    if i < p {
      match MatchAt(s, i)
      case None =>
        assert ScanFrom(s, i) == ScanFrom(s, i + 1);
        ScanPassesThrough(s, i + 1, p);
      case Some(e) =>
        assert ScanFrom(s, i) == [Span(i, e)] + ScanFrom(s, e);
        MatchStopsBeforeSeparator(s, i, p);
        ScanPassesThrough(s, e, p);
        ConsEndsWith(Span(i, e), ScanFrom(s, e), ScanFrom(s, p));
    }
  }

  lemma ConsEndsWith(x: Span, a: seq<Span>, b: seq<Span>)
    requires EndsWith(a, b)
    ensures EndsWith([x] + a, b)
  {
    assert ([x] + a)[|[x] + a| - |b|..] == a[|a| - |b|..];
  }

  /** A match that starts before a separator ends before it. */
  lemma MatchStopsBeforeSeparator(s: string, i: nat, p: nat)
    requires i < p <= |s| && SeparatorBefore(s, p)
    requires MatchAt(s, i).Some?
    ensures MatchAt(s, i).value <= p
  {
    var e := MatchAt(s, i).value;
    MatchIsReading(s, i);
    ReadingShape(s[i..e]);
    forall q | i <= q < e ensures IsDigit(s[q]) || s[q] == '.' {
      assert s[q] == s[i..e][q - i];
    }
  }

  lemma {:induction false} TextsConcat(s: string, a: seq<Span>, b: seq<Span>)
    requires SpansWithin(s, a) && SpansWithin(s, b)
    ensures SpansWithin(s, a + b)
    ensures Texts(s, a + b) == Texts(s, a) + Texts(s, b)
    decreases |a|
  {
    if |a| > 0 {
      assert (a + b)[1..] == a[1..] + b;
      TextsConcat(s, a[1..], b);
    } else {
      assert a + b == b;
    }
  }

  /** The candidates of the whole text end with the texts the scan finds
      from `i`, when `i` starts the text or follows a separator. */
  lemma CandidatesEndWith(s: string, i: nat)
    requires i <= |s| && (i == 0 || SeparatorBefore(s, i))
    ensures exists pre :: Candidates(s) == pre + Texts(s, ScanFrom(s, i))
  {
    ScanPassesThrough(s, 0, i);
    var all, tail := ScanFrom(s, 0), ScanFrom(s, i);
    var pre := all[..|all| - |tail|];
    assert all == pre + tail;
    assert SpansWithin(s, pre) by {
      forall k | 0 <= k < |pre| ensures pre[k].start <= pre[k].end <= |s| {
        assert pre[k] == all[k];
      }
    }
    TextsConcat(s, pre, tail);
  }

  lemma Associate(a: seq<string>, b: seq<string>, c: seq<string>)
    ensures a + (b + c) == a + b + c
  {
  }

  /** A maximal run of digits that starts the text or follows a separator
      is cut, inside the candidates of the whole text, into eight-digit
      pieces from the left, then the rest if it still has five digits. */
  lemma RunChunksInCandidates(s: string, i: nat, j: nat)
    requires RunEndsAt(s, i, j)
    requires i == 0 || SeparatorBefore(s, i)
    ensures exists pre, post :: Candidates(s) == pre + Chunks(s[i..j]) + post
  {
    CandidatesEndWith(s, i);
    var pre :| Candidates(s) == pre + Texts(s, ScanFrom(s, i));
    DigitRunChunksAt(s, i, j);
    var c, post := Chunks(s[i..j]), Texts(s, ScanFrom(s, j));
    assert Candidates(s) == pre + (c + post);
    Associate(pre, c, post);
  }

  /** A text that is one run of digits yields eight-digit candidates from
      the left followed by one shorter candidate, which is kept only when
      it has at least five digits. */
  lemma DigitRunChunks(s: string)
    requires AllDigits(s)
    ensures Candidates(s) == Chunks(s)
  {
    assert RunEndsAt(s, 0, |s|);
    DigitRunChunksAt(s, 0, |s|);
    assert s[0..|s|] == s;
  }
}
