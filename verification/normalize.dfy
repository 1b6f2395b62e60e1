/** The text-preparation half of `extract_logic` (app.py:34-44): the OCR
    fragments are joined with single spaces, upper-cased, commas become
    decimal points, and a fixed table of letters that OCR confuses with
    digits is replaced, one `str.replace` call per table entry. */
module Normalize {
  import opened Chars

  /** The number of characters of all fragments together. */
  function TotalLength(fragments: seq<string>): nat
    decreases |fragments|
  {
    if |fragments| == 0 then 0 else |fragments[0]| + TotalLength(fragments[1..])
  }

  /** `" ".join(fragments)`: every character of every fragment, plus one
      separator between each two neighbouring fragments. */
  function Join(fragments: seq<string>): (r: string)
    ensures |fragments| == 0 ==> r == ""
    ensures |fragments| > 0 ==> |r| == TotalLength(fragments) + |fragments| - 1
    decreases |fragments|
  {
    if |fragments| == 0 then ""
    else if |fragments| == 1 then fragments[0]
    else fragments[0] + " " + Join(fragments[1..])
  }

  /** Where fragment `k` starts in the joined text: after all earlier
      fragments and one separator after each of them. */
  function Offset(fragments: seq<string>, k: nat): nat
    requires k <= |fragments|
  {
    TotalLength(fragments[..k]) + k
  }

  lemma OffsetStep(fragments: seq<string>, k: nat)
    requires 0 < k <= |fragments|
    ensures Offset(fragments, k) == |fragments[0]| + 1 + Offset(fragments[1..], k - 1)
  {
    assert fragments[..k][1..] == fragments[1..][..k - 1];
  }

  /** Fragment `k` sits in the joined text at `Offset(k)`. */
  lemma {:induction false} JoinFragments(fragments: seq<string>)
    ensures forall k :: 0 <= k < |fragments| ==>
      && Offset(fragments, k) + |fragments[k]| <= |Join(fragments)|
      && Join(fragments)[Offset(fragments, k)..Offset(fragments, k) + |fragments[k]|] == fragments[k]
    decreases |fragments|
  {
    if |fragments| == 1 {
      assert Offset(fragments, 0) == 0;
    } else if |fragments| >= 2 {
      var f, rest := fragments[0], fragments[1..];
      var j, r := Join(fragments), Join(rest);
      JoinFragments(rest);
      assert j == f + " " + r;
      assert Offset(fragments, 0) == 0;
      forall k | 0 < k < |fragments|
        ensures Offset(fragments, k) + |fragments[k]| <= |j|
        ensures j[Offset(fragments, k)..Offset(fragments, k) + |fragments[k]|] == fragments[k]
      {
        OffsetStep(fragments, k);
        var o := Offset(rest, k - 1);
        assert fragments[k] == rest[k - 1];
        assert j[|f| + 1 + o..|f| + 1 + o + |fragments[k]|] == r[o..o + |rest[k - 1]|];
      }
    }
  }

  /** A space follows every fragment of the joined text but the last. */
  lemma {:induction false} JoinSeparators(fragments: seq<string>)
    ensures forall k :: 0 <= k < |fragments| - 1 ==>
      && Offset(fragments, k) + |fragments[k]| < |Join(fragments)|
      && Join(fragments)[Offset(fragments, k) + |fragments[k]|] == ' '
    decreases |fragments|
  {
    if |fragments| >= 2 {
      var f, rest := fragments[0], fragments[1..];
      var j, r := Join(fragments), Join(rest);
      JoinSeparators(rest);
      assert j == f + " " + r;
      assert Offset(fragments, 0) == 0;
      forall k | 0 < k < |fragments| - 1
        ensures Offset(fragments, k) + |fragments[k]| < |j|
        ensures j[Offset(fragments, k) + |fragments[k]|] == ' '
      {
        OffsetStep(fragments, k);
        assert fragments[k] == rest[k - 1];
        assert j[|f| + 1 + Offset(rest, k - 1) + |rest[k - 1]|] == r[Offset(rest, k - 1) + |rest[k - 1]|];
      }
    }
  }

  /** `s.upper()`, ASCII only: no small letter is left, each small letter
      becomes its own capital, and every other character is kept. */
  function UpperCase(s: string): (r: string)
    ensures |r| == |s|
    ensures forall i :: 0 <= i < |r| ==> !('a' <= r[i] <= 'z')
    ensures forall i :: 0 <= i < |s| && !('a' <= s[i] <= 'z') ==> r[i] == s[i]
    ensures forall i :: 0 <= i < |s| && 'a' <= s[i] <= 'z' ==>
      r[i] as int - 'A' as int == s[i] as int - 'a' as int
  {
    seq(|s|, i requires 0 <= i < |s| => ToUpper(s[i]))
  }

  /** `s.replace(k, v)` for one-character `k` and `v`: every `k` becomes
      `v`, so no `k` is left when `k != v`, and nothing else changes. */
  function ReplaceChar(s: string, k: char, v: char): (r: string)
    ensures |r| == |s|
    ensures k != v ==> forall i :: 0 <= i < |r| ==> r[i] != k
    ensures forall i :: 0 <= i < |s| && s[i] == k ==> r[i] == v
    ensures forall i :: 0 <= i < |s| && s[i] != k ==> r[i] == s[i]
  {
    seq(|s|, i requires 0 <= i < |s| => if s[i] == k then v else s[i])
  }

  /** The confusion table, in the insertion order of the source's dict,
      which is the order the replacement loop visits it. */
  const MappingOrder: seq<(char, char)> :=
    [('O', '0'), ('D', '0'), ('Q', '0'),
     ('B', '8'), ('S', '5'), ('G', '6'),
     ('I', '1'), ('L', '1'), ('T', '7'),
     ('Z', '2'), ('A', '4')]

  /** `for k, v in pairs: s = s.replace(k, v)`. No character is added or
      removed, and a character that is no key of the table is kept. */
  function ApplyMapping(s: string, pairs: seq<(char, char)>): (r: string)
    ensures |r| == |s|
    ensures forall i :: 0 <= i < |s| && !IsKey(pairs, s[i]) ==> r[i] == s[i]
    decreases |pairs|
  {
    if |pairs| == 0 then s
    else
      assert forall c :: IsKey(pairs[1..], c) ==> IsKey(pairs, c) by {
        forall c | IsKey(pairs[1..], c) ensures IsKey(pairs, c) {
          var j :| 0 <= j < |pairs| - 1 && pairs[1..][j].0 == c;
          assert pairs[j + 1].0 == c;
        }
      }
      ApplyMapping(ReplaceChar(s, pairs[0].0, pairs[0].1), pairs[1..])
  }

  /** The value the first pair with key `c` gives, or `c` itself when no
      pair has that key: what one simultaneous pass of the table does to
      a character. */
  function LookupPairs(pairs: seq<(char, char)>, c: char): char
    decreases |pairs|
  {
    if |pairs| == 0 then c
    else if pairs[0].0 == c then pairs[0].1
    else LookupPairs(pairs[1..], c)
  }

  predicate IsKey(pairs: seq<(char, char)>, c: char) {
    exists j :: 0 <= j < |pairs| && pairs[j].0 == c
  }

  /** No replacement produces a character that some replacement rewrites. */
  predicate NoValueIsKey(pairs: seq<(char, char)>) {
    forall i :: 0 <= i < |pairs| ==> !IsKey(pairs, pairs[i].1)
  }

  predicate DistinctKeys(pairs: seq<(char, char)>) {
    forall i, j :: 0 <= i < j < |pairs| ==> pairs[i].0 != pairs[j].0
  }

  /** The table applied to every character at once. */
  function SubstituteAll(s: string, pairs: seq<(char, char)>): string
  {
    seq(|s|, i requires 0 <= i < |s| => LookupPairs(pairs, s[i]))
  }

  lemma {:induction false} LookupNonKey(pairs: seq<(char, char)>, c: char)
    requires !IsKey(pairs, c)
    ensures LookupPairs(pairs, c) == c
    decreases |pairs|
  {
    if |pairs| > 0 {
      assert pairs[0].0 != c;
      assert !IsKey(pairs[1..], c) by {
        forall j | 0 <= j < |pairs| - 1 ensures pairs[1..][j].0 != c {
          assert pairs[1..][j] == pairs[j + 1];
        }
      }
      LookupNonKey(pairs[1..], c);
    }
  }

  lemma {:induction false} LookupFindsPair(pairs: seq<(char, char)>, c: char, v: char)
    requires DistinctKeys(pairs)
    requires (c, v) in pairs
    ensures LookupPairs(pairs, c) == v
    decreases |pairs|
  {
    if pairs[0] != (c, v) {
      var j :| 0 <= j < |pairs| && pairs[j] == (c, v);
      assert pairs[0].0 != c;
      assert pairs[1..][j - 1] == (c, v);
      LookupFindsPair(pairs[1..], c, v);
    }
  }

  /** Replacing one character at a time gives the same text as one
      simultaneous pass of the table, as long as no replacement value is
      itself a key. */
  lemma {:induction false} ApplyMappingIsSubstitution(s: string, pairs: seq<(char, char)>)
    requires NoValueIsKey(pairs)
    ensures ApplyMapping(s, pairs) == SubstituteAll(s, pairs)
    decreases |pairs|
  {
    if |pairs| == 0 {
      assert SubstituteAll(s, pairs) == s;
    } else {
      var k, v := pairs[0].0, pairs[0].1;
      var rest := pairs[1..];
      var t := ReplaceChar(s, k, v);
      forall c | IsKey(rest, c) ensures IsKey(pairs, c) {
        var j :| 0 <= j < |rest| && rest[j].0 == c;
        assert pairs[j + 1].0 == c;
      }
      assert NoValueIsKey(rest) by {
        forall i | 0 <= i < |rest| ensures !IsKey(rest, rest[i].1) {
          assert rest[i] == pairs[i + 1];
        }
      }
      ApplyMappingIsSubstitution(t, rest);
      assert !IsKey(rest, v);
      LookupNonKey(rest, v);
      assert SubstituteAll(t, rest) == SubstituteAll(s, pairs);
    }
  }

  /** The order of the replacement loop does not matter: any reordering of
      a table with distinct keys, none of whose values is a key, rewrites
      every text the same way. */
  lemma ReplacementOrderIrrelevant(s: string, pairs: seq<(char, char)>, reordered: seq<(char, char)>)
    requires DistinctKeys(pairs) && DistinctKeys(reordered)
    requires NoValueIsKey(pairs) && NoValueIsKey(reordered)
    requires multiset(pairs) == multiset(reordered)
    ensures ApplyMapping(s, pairs) == ApplyMapping(s, reordered)
  {
    ApplyMappingIsSubstitution(s, pairs);
    ApplyMappingIsSubstitution(s, reordered);
    forall i | 0 <= i < |s|
      ensures LookupPairs(pairs, s[i]) == LookupPairs(reordered, s[i])
    {
      var c := s[i];
      if j :| 0 <= j < |pairs| && pairs[j].0 == c {
        assert pairs[j] in multiset(reordered);
        LookupFindsPair(pairs, c, pairs[j].1);
        LookupFindsPair(reordered, c, pairs[j].1);
      } else {
        assert !IsKey(reordered, c) by {
          forall j | 0 <= j < |reordered| ensures reordered[j].0 != c {
            assert reordered[j] in multiset(pairs);
          }
        }
        LookupNonKey(pairs, c);
        LookupNonKey(reordered, c);
      }
    }
  }

  /** The confusion table of the source, as a case analysis on the
      upper-cased character. */
  function ConfusedDigit(u: char): char
  {
    match u
    case 'O' => '0'
    case 'D' => '0'
    case 'Q' => '0'
    case 'B' => '8'
    case 'S' => '5'
    case 'G' => '6'
    case 'I' => '1'
    case 'L' => '1'
    case 'T' => '7'
    case 'Z' => '2'
    case 'A' => '4'
    case _ => u
  }

  lemma MappingOrderWellFormed()
    ensures forall j :: 0 <= j < |MappingOrder| ==> 'A' <= MappingOrder[j].0 <= 'Z'
    ensures forall j :: 0 <= j < |MappingOrder| ==> IsDigit(MappingOrder[j].1)
    ensures NoValueIsKey(MappingOrder)
    ensures DistinctKeys(MappingOrder)
  {
  }

  /** The ordered table of the source and the case analysis agree. */
  lemma MappingOrderLookup(u: char)
    ensures LookupPairs(MappingOrder, u) == ConfusedDigit(u)
  {
    MappingOrderWellFormed();
    var p := MappingOrder;
    if u == 'O' {
      assert p[0] == ('O', '0');
      LookupFindsPair(p, u, '0');
    } else if u == 'D' {
      assert p[1] == ('D', '0');
      LookupFindsPair(p, u, '0');
    } else if u == 'Q' {
      assert p[2] == ('Q', '0');
      LookupFindsPair(p, u, '0');
    } else if u == 'B' {
      assert p[3] == ('B', '8');
      LookupFindsPair(p, u, '8');
    } else if u == 'S' {
      assert p[4] == ('S', '5');
      LookupFindsPair(p, u, '5');
    } else if u == 'G' {
      assert p[5] == ('G', '6');
      LookupFindsPair(p, u, '6');
    } else if u == 'I' {
      assert p[6] == ('I', '1');
      LookupFindsPair(p, u, '1');
    } else if u == 'L' {
      assert p[7] == ('L', '1');
      LookupFindsPair(p, u, '1');
    } else if u == 'T' {
      assert p[8] == ('T', '7');
      LookupFindsPair(p, u, '7');
    } else if u == 'Z' {
      assert p[9] == ('Z', '2');
      LookupFindsPair(p, u, '2');
    } else if u == 'A' {
      assert p[10] == ('A', '4');
      LookupFindsPair(p, u, '4');
    } else {
      assert !IsKey(p, u);
      LookupNonKey(p, u);
    }
  }

  /** What normalisation does to one character of the joined text: a
      comma becomes a decimal point, a confusable letter of either case
      becomes its digit, any other lower-case letter is upper-cased and
      everything else is kept. The result is never a lower-case letter,
      a comma or a letter of the confusion table. */
  function NormalChar(c: char): (r: char)
    ensures !('a' <= r <= 'z') && r != ','
    ensures !IsKey(MappingOrder, r)
  {
    var u := ToUpper(c);
    if u == ',' then '.' else ConfusedDigit(u)
  }

  /** Each letter of the confusion table becomes its digit whether OCR read
      it as a capital or as a small letter. */
  lemma ConfusableLettersEitherCase()
    ensures forall j :: 0 <= j < |MappingOrder| ==>
      NormalChar(MappingOrder[j].0) == MappingOrder[j].1 &&
      NormalChar((MappingOrder[j].0 as int + 32) as char) == MappingOrder[j].1
  {
    MappingOrderWellFormed();
    forall j | 0 <= j < |MappingOrder|
      ensures NormalChar(MappingOrder[j].0) == MappingOrder[j].1
      ensures NormalChar((MappingOrder[j].0 as int + 32) as char) == MappingOrder[j].1
    {
      var (k, v) := MappingOrder[j];
      var lower := (k as int + 32) as char;
      assert ToUpper(lower) == k;
      LookupFindsPair(MappingOrder, k, v);
      MappingOrderLookup(k);
    }
  }

  /** Digits, points and spaces pass through normalisation unchanged. */
  lemma NormalCharKeeps(c: char)
    requires IsDigit(c) || c == '.' || c == ' '
    ensures NormalChar(c) == c
  {
  }

  function NormalString(s: string): string
  {
    seq(|s|, i requires 0 <= i < |s| => NormalChar(s[i]))
  }

  /** `full_text` after the replacement loop (app.py:34-44). Its contract
      states that the loop of replacements amounts to `NormalChar` applied
      to each character of the joined text, and that no character is
      added or removed. */
  function FullText(fragments: seq<string>): (text: string)
    ensures |text| == |Join(fragments)|
    ensures forall i :: 0 <= i < |text| ==> text[i] == NormalChar(Join(fragments)[i])
  {
    var joined := ReplaceChar(UpperCase(Join(fragments)), ',', '.');
    FullTextPointwise(Join(fragments));
    ApplyMapping(joined, MappingOrder)
  }

  lemma FullTextPointwise(s: string)
    ensures var t := ApplyMapping(ReplaceChar(UpperCase(s), ',', '.'), MappingOrder);
      |t| == |s| && forall i :: 0 <= i < |s| ==> t[i] == NormalChar(s[i])
  {
    var joined := ReplaceChar(UpperCase(s), ',', '.');
    MappingOrderWellFormed();
    ApplyMappingIsSubstitution(joined, MappingOrder);
    forall i | 0 <= i < |s|
      ensures LookupPairs(MappingOrder, joined[i]) == NormalChar(s[i])
    {
      MappingOrderLookup(joined[i]);
    }
  }

  /** Each fragment normalised on its own. */
  function NormalAll(fragments: seq<string>): (r: seq<string>)
    ensures |r| == |fragments|
    decreases |fragments|
  {
    if |fragments| == 0 then [] else [NormalString(fragments[0])] + NormalAll(fragments[1..])
  }

  /** Normalisation never touches the joining space, so normalising the
      joined text is joining the normalised fragments. */
  lemma {:induction false} NormalStringOfJoin(fragments: seq<string>)
    ensures NormalString(Join(fragments)) == Join(NormalAll(fragments))
    decreases |fragments|
  {
    if |fragments| >= 2 {
      var f := fragments[0];
      var rest := fragments[1..];
      NormalStringOfJoin(rest);
      var n := NormalAll(fragments);
      assert n[0] == NormalString(f) && n[1..] == NormalAll(rest);
      assert NormalChar(' ') == ' ';
      assert NormalString(f + " " + Join(rest)) == NormalString(f) + " " + NormalString(Join(rest));
    } else if |fragments| == 1 {
      assert NormalAll(fragments) == [NormalString(fragments[0])];
    }
  }

  /** A slice of the joined text that contains no space lies inside a single
      fragment: the separator the join inserts is a space. */
  lemma {:induction false} SpaceFreeSliceInOneFragment(fragments: seq<string>, a: nat, b: nat)
    requires a < b <= |Join(fragments)|
    requires forall i :: a <= i < b ==> Join(fragments)[i] != ' '
    ensures exists k, c, d :: 0 <= k < |fragments| && 0 <= c <= d <= |fragments[k]| &&
              Join(fragments)[a..b] == fragments[k][c..d]
    decreases |fragments|
  {
    var j := Join(fragments);
    if |fragments| == 1 {
      assert j[a..b] == fragments[0][a..b];
    } else {
      var f := fragments[0];
      var rest := fragments[1..];
      assert j == f + " " + Join(rest);
      assert j[|f|] == ' ';
      if b <= |f| {
        assert j[a..b] == f[a..b];
      } else if a > |f| {
        var a', b' := a - |f| - 1, b - |f| - 1;
        forall i | a' <= i < b' ensures Join(rest)[i] != ' ' {
          assert Join(rest)[i] == j[i + |f| + 1];
        }
        SpaceFreeSliceInOneFragment(rest, a', b');
        var k, c, d :| 0 <= k < |rest| && 0 <= c <= d <= |rest[k]| && Join(rest)[a'..b'] == rest[k][c..d];
        assert j[a..b] == Join(rest)[a'..b'];
        assert fragments[k + 1] == rest[k];
      } else {
        assert false;
      }
    }
  }

  lemma {:induction false} NormalAllAt(fragments: seq<string>, k: nat)
    requires k < |fragments|
    ensures NormalAll(fragments)[k] == NormalString(fragments[k])
    decreases k
  {
    if k > 0 {
      NormalAllAt(fragments[1..], k - 1);
    }
  }

  /** A space-free slice of the normalised text is a slice of the
      normalised text of one fragment. */
  lemma SpaceFreeSliceOfFullText(fragments: seq<string>, a: nat, b: nat)
    requires a < b <= |FullText(fragments)|
    requires forall i :: a <= i < b ==> FullText(fragments)[i] != ' '
    ensures exists k, c, d :: 0 <= k < |fragments| && 0 <= c <= d <= |FullText([fragments[k]])| &&
              FullText(fragments)[a..b] == FullText([fragments[k]])[c..d]
  {
    FullTextIsNormalString(fragments);
    NormalStringOfJoin(fragments);
    var parts := NormalAll(fragments);
    SpaceFreeSliceInOneFragment(parts, a, b);
    var k, c, d :| 0 <= k < |parts| && 0 <= c <= d <= |parts[k]| && Join(parts)[a..b] == parts[k][c..d];
    NormalAllAt(fragments, k);
    FullTextIsNormalString([fragments[k]]);
    assert Join([fragments[k]]) == fragments[k];
  }

  lemma FullTextIsNormalString(fragments: seq<string>)
    ensures FullText(fragments) == NormalString(Join(fragments))
  {
  }
}
