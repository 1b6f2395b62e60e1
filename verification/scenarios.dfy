/** Concrete inputs and what `extract_logic` makes of them. */
module Scenarios {
  import opened Chars
  import opened Normalize
  import opened Scan
  import opened Select
  import opened Extract

  /** Text made of digits, points and spaces is its own normalisation. */
  lemma PlainTextUnchanged(fragments: seq<string>)
    requires forall i :: 0 <= i < |Join(fragments)| ==>
      IsDigit(Join(fragments)[i]) || Join(fragments)[i] == '.' || Join(fragments)[i] == ' '
    ensures FullText(fragments) == Join(fragments)
  {
    var j := Join(fragments);
    forall i | 0 <= i < |j| ensures FullText(fragments)[i] == j[i] {
      NormalCharKeeps(j[i]);
    }
  }

  /** The normalised text of one fragment, character by character. */
  lemma OneFragmentText(f: string, t: string)
    requires |t| == |f| && forall i :: 0 <= i < |f| ==> t[i] == NormalChar(f[i])
    ensures FullText([f]) == t
  {
    assert Join([f]) == f;
  }

  /** `O` and `B` are read as `0` and `8`. */
  lemma ConfusableLettersBecomeDigits()
    ensures FullText(["O12B45"]) == "012845"
  {
    var f, t := "O12B45", "012845";
    assert NormalChar('O') == '0' && NormalChar('B') == '8';
    forall i | 0 <= i < |f| ensures t[i] == NormalChar(f[i]) {
      if i != 0 && i != 3 {
        NormalCharKeeps(f[i]);
      }
    }
    OneFragmentText(f, t);
  }

  /** A single varied candidate is the reading. */
  lemma SingleSurvivor(text: string)
    requires Survivors(text) == [text]
    ensures ExtractFrom(text) == text
  {
  }

  /** A run of five to eight digits, two of them different, is its own
      reading. */
  lemma DigitRunSurvives(text: string)
    requires 5 <= |text| <= 8 && AllDigits(text) && text[0] != text[1]
    ensures ExtractFrom(text) == text
  {
    DigitRunChunks(text);
    assert Chunks(text) == [text] by {
      if |text| == 8 {
        assert text[..8] == text && text[8..] == [];
      }
    }
    FirstTwoDiffer(text);
    assert Survivors(text) == [text];
    SingleSurvivor(text);
  }

  /** The reading of `"O12B45"` is `"012845"`. */
  lemma ConfusableLettersReading()
    ensures ExtractLogic(["O12B45"]) == "012845"
  {
    var t := "012845";
    assert 5 <= |t| <= 8 && AllDigits(t) && t[0] != t[1];
    DigitRunSurvives(t);
    ConfusableLettersBecomeDigits();
  }

  /** A run of thirteen digits is cut into eight digits and five. */
  lemma ThirteenDigitRun()
    ensures Candidates("1234567890123") == ["12345678", "90123"]
  {
    var s := "1234567890123";
    assert AllDigits(s);
    DigitRunChunks(s);
    assert s[..8] == "12345678";
    assert s[8..] == "90123";
    assert Chunks(s[8..]) == ["90123"];
  }

  /** The fractional part stops after three digits, and the digit left
      over is too short to start a candidate. */
  lemma FractionStopsAtThreeDigits()
    ensures Candidates("12345.6789") == ["12345.678"]
  {
    var s := "12345.6789";
    CountDigitsExact(s, 0, 8, 5);
    CountDigitsExact(s, 6, 3, 3);
    assert MatchAt(s, 0) == Some(9);
    CountDigitsExact(s, 9, 8, 1);
    assert MatchAt(s, 9) == None;
    assert ScanFrom(s, 9) == [];
    assert ScanFrom(s, 0) == [Span(0, 9)];
    assert s[0..9] == "12345.678";
  }

  /** With two survivors the second wins only when it is longer. */
  lemma TwoSurvivors(text: string, a: string, b: string)
    requires Survivors(text) == [a, b]
    ensures ExtractFrom(text) == if |b| > |a| then b else a
  {
    var r := ExtractFrom(text);
    var k :| IsFirstLongest([a, b], k) && r == [a, b][k];
  }

  /** A candidate whose first two characters are different digits
      survives the filter. */
  lemma FirstTwoDiffer(p: string)
    requires |p| >= 2 && IsDigit(p[0]) && IsDigit(p[1]) && p[0] != p[1]
    ensures Varied(p)
  {
    VariedIffTwoDistinct(p);
  }

  /** Two candidates that both survive the filter. */
  lemma BothSurvive(text: string)
    requires |Candidates(text)| == 2
    requires Varied(Candidates(text)[0]) && Varied(Candidates(text)[1])
    ensures Survivors(text) == Candidates(text)
  {
    var cs := Candidates(text);
    assert cs[1..][1..] == [];
    assert KeepVaried(cs[1..]) == [cs[1]];
  }

  /** Two candidates, each with two different leading digits: both
      survive, and the longer one, or the first when they are equally long,
      is the reading. */
  lemma TwoCandidatesReading(text: string, a: string, b: string)
    requires Candidates(text) == [a, b]
    requires |a| >= 2 && IsDigit(a[0]) && IsDigit(a[1]) && a[0] != a[1]
    requires |b| >= 2 && IsDigit(b[0]) && IsDigit(b[1]) && b[0] != b[1]
    ensures ExtractFrom(text) == if |b| > |a| then b else a
  {
    FirstTwoDiffer(a);
    FirstTwoDiffer(b);
    BothSurvive(text);
    TwoSurvivors(text, a, b);
  }

  /** Two fragments of digits are read from their join. */
  lemma TwoDigitFragments(a: string, b: string)
    requires AllDigits(a) && AllDigits(b)
    ensures ExtractLogic([a, b]) == ExtractFrom(a + " " + b)
  {
    assert Join([a, b]) == a + " " + Join([b]);
    PlainTextUnchanged([a, b]);
  }

  /** A maximal run of five to eight digits at `i` is the one candidate
      the scan finds before `j`. */
  lemma OneRunThenRest(s: string, i: nat, j: nat)
    requires RunEndsAt(s, i, j) && i + 5 <= j <= i + 8
    ensures Texts(s, ScanFrom(s, i)) == [s[i..j]] + Texts(s, ScanFrom(s, j))
  {
    DigitRunChunksAt(s, i, j);
    MidRunChunk(s, i, j);
  }

  /** The scan passes over a character that is not a digit. */
  lemma SkipNonDigit(s: string, i: nat)
    requires i < |s| && !IsDigit(s[i])
    ensures ScanFrom(s, i) == ScanFrom(s, i + 1)
  {
    CountDigitsExact(s, i, 8, 0);
  }

  /** Two runs of five to eight digits separated by a space are two
      candidates, in text order. */
  lemma TwoRuns(a: string, b: string)
    requires AllDigits(a) && AllDigits(b)
    requires 5 <= |a| <= 8 && 5 <= |b| <= 8
    ensures Candidates(a + " " + b) == [a, b]
  {
    var s := a + " " + b;
    var m := |a| + 1;
    assert s[|a|] == ' ';
    assert RunEndsAt(s, 0, |a|) && s[0..|a|] == a by {
      forall k | 0 <= k < |a| ensures s[k] == a[k] { }
    }
    assert RunEndsAt(s, m, |s|) && s[m..|s|] == b by {
      forall k | m <= k < |s| ensures s[k] == b[k - m] { }
    }
    OneRunThenRest(s, 0, |a|);
    SkipNonDigit(s, |a|);
    OneRunThenRest(s, m, |s|);
    assert ScanFrom(s, |s|) == [];
  }

  /** `12345 1234567`: the second run wins because it is longer. */
  lemma LongerSecondRunWins()
    ensures ExtractLogic(["12345", "1234567"]) == "1234567"
  {
    var a, b := "12345", "1234567";
    TwoRuns(a, b);
    TwoCandidatesReading(a + " " + b, a, b);
    TwoDigitFragments(a, b);
  }

  /** Eight digits followed by five, each part with two different leading
      digits, read as the first eight. */
  lemma ThirteenDigitsReading(a: string, b: string)
    requires |a| == 8 && |b| == 5 && AllDigits(a) && AllDigits(b)
    requires a[0] != a[1] && b[0] != b[1]
    ensures ExtractFrom(a + b) == a
  {
    var s := a + b;
    assert AllDigits(s);
    DigitRunChunks(s);
    assert s[..8] == a && s[8..] == b;
    assert Chunks(b) == [b];
    TwoCandidatesReading(s, a, b);
  }

  lemma AllZerosGivesSentinel()
    ensures ExtractFrom("000000") == Sentinel
  {
    OneDigitValueGivesSentinel("000000", '0');
  }

  /** A single fragment of digits is read as it stands. */
  lemma DigitFragmentReadsItself(f: string)
    requires AllDigits(f)
    ensures ExtractLogic([f]) == ExtractFrom(f)
  {
    forall i | 0 <= i < |f| ensures f[i] == NormalChar(f[i]) {
      NormalCharKeeps(f[i]);
    }
    OneFragmentText(f, f);
  }

  /** A fragment of one repeated digit is not a reading. */
  lemma RepeatedDigitFragment(f: string, d: char)
    requires AllDigits(f) && forall i :: 0 <= i < |f| ==> f[i] == d
    ensures ExtractLogic([f]) == Sentinel
  {
    DigitFragmentReadsItself(f);
    OneDigitValueGivesSentinel(f, d);
  }

  /** `000000` is not a reading. */
  lemma RepeatedDigitIsRejected()
    ensures ExtractLogic(["000000"]) == Sentinel
  {
    RepeatedDigitFragment("000000", '0');
  }
}
