/** Validation and ranking of candidates (app.py:51-54): candidates whose
    digits are all the same are dropped, the rest are sorted by length,
    longest first, with Python's stable sort, and the first is taken. */
module Select {

  /** `p.replace('.', '')` */
  function RemoveDots(p: string): (q: string)
    ensures forall c :: c in q <==> c in p && c != '.'
    decreases |p|
  {
    if |p| == 0 then ""
    else (if p[0] == '.' then "" else [p[0]]) + RemoveDots(p[1..])
  }

  /** `set(t)` */
  function DistinctChars(t: string): set<char> {
    set c | c in t
  }

  /** The filter of the list comprehension: `len(set(p.replace('.', ''))) > 1`.
      A candidate that passes has at least two characters besides points. */
  predicate Varied(p: string): (b: bool)
    ensures b ==> |RemoveDots(p)| >= 2
  {
    DistinctCharsAtMost(RemoveDots(p));
    |DistinctChars(RemoveDots(p))| > 1
  }

  /** A text has no more distinct characters than characters. */
  lemma {:induction false} DistinctCharsAtMost(t: string)
    ensures |DistinctChars(t)| <= |t|
    decreases |t|
  {
    if |t| > 0 {
      DistinctCharsAtMost(t[1..]);
      assert DistinctChars(t) == {t[0]} + DistinctChars(t[1..]);
    }
  }

  /** A candidate survives exactly when two of its non-point characters
      differ. */
  lemma VariedIffTwoDistinct(p: string)
    ensures Varied(p) <==>
      exists i, j :: 0 <= i < |p| && 0 <= j < |p| && p[i] != '.' && p[j] != '.' && p[i] != p[j]
  {
    var ds := DistinctChars(RemoveDots(p));
    if Varied(p) {
      var x :| x in ds;
      assert |ds - {x}| == |ds| - 1;
      var y :| y in ds - {x};
      var i :| 0 <= i < |p| && p[i] == x;
      var j :| 0 <= j < |p| && p[j] == y;
    }
    if exists i, j :: 0 <= i < |p| && 0 <= j < |p| && p[i] != '.' && p[j] != '.' && p[i] != p[j] {
      var i, j :| 0 <= i < |p| && 0 <= j < |p| && p[i] != '.' && p[j] != '.' && p[i] != p[j];
      assert {p[i], p[j]} <= ds;
      assert |{p[i], p[j]}| == 2;
      SubsetCard({p[i], p[j]}, ds);
    }
  }

  lemma SubsetCard(a: set<char>, b: set<char>)
    requires a <= b
    ensures |a| <= |b|
  {
    assert b == a + (b - a);
  }

  /** `[p for p in cs if Varied(p)]` */
  function KeepVaried(cs: seq<string>): (valid: seq<string>)
    ensures forall c :: c in valid <==> c in cs && Varied(c)
    ensures |valid| <= |cs|
    decreases |cs|
  {
    if |cs| == 0 then []
    else (if Varied(cs[0]) then [cs[0]] else []) + KeepVaried(cs[1..])
  }

  /** The filter keeps the order and the repetitions of its input:
      filtering two lists one after the other is filtering their
      concatenation. With `KeepVariedOne` this fixes the result, so `valid`
      is the passing candidates in their original order. */
  lemma {:induction false} KeepVariedConcat(a: seq<string>, b: seq<string>)
    ensures KeepVaried(a + b) == KeepVaried(a) + KeepVaried(b)
    decreases |a|
  {
    if |a| > 0 {
      var head := if Varied(a[0]) then [a[0]] else [];
      assert (a + b)[0] == a[0] && (a + b)[1..] == a[1..] + b;
      assert KeepVaried(a + b) == head + KeepVaried(a[1..] + b);
      assert KeepVaried(a) == head + KeepVaried(a[1..]);
      KeepVariedConcat(a[1..], b);
    } else {
      assert a + b == b;
    }
  }

  /** A single candidate is kept exactly when it passes the filter. */
  lemma KeepVariedOne(c: string)
    ensures KeepVaried([c]) == (if Varied(c) then [c] else [])
  {
    assert [c][1..] == [];
  }

  predicate DescendingByLength(v: seq<string>) {
    forall a, b :: 0 <= a < b < |v| ==> |v[a]| >= |v[b]|
  }

  /** Inserts `x` in front of the first element that is not longer than it,
      so `x` stays ahead of equal-length elements that came after it in the
      input. */
  function InsertByLength(x: string, sorted: seq<string>): (r: seq<string>)
    ensures multiset(r) == multiset(sorted) + multiset{x}
    decreases |sorted|
  {
    if |sorted| == 0 || |x| >= |sorted[0]| then [x] + sorted
    else
      assert sorted == [sorted[0]] + sorted[1..];
      [sorted[0]] + InsertByLength(x, sorted[1..])
  }

  lemma {:induction false} InsertKeepsDescending(x: string, sorted: seq<string>)
    requires DescendingByLength(sorted)
    ensures DescendingByLength(InsertByLength(x, sorted))
    decreases |sorted|
  {
    if |sorted| > 0 && |x| < |sorted[0]| {
      var rest := sorted[1..];
      var r' := InsertByLength(x, rest);
      InsertKeepsDescending(x, rest);
      forall b | 0 <= b < |r'| ensures |r'[b]| <= |sorted[0]| {
        assert r'[b] in multiset(r');
        if r'[b] != x {
          assert r'[b] in multiset(rest);
          var c :| 0 <= c < |rest| && rest[c] == r'[b];
          assert rest[c] == sorted[c + 1];
        }
      }
    } else if |sorted| > 0 {
      assert forall b :: 0 <= b < |sorted| ==> |sorted[b]| <= |sorted[0]|;
    }
  }

  /** `v.sort(key=len, reverse=True)`, as a stable insertion sort. */
  function SortByLengthDesc(v: seq<string>): (r: seq<string>)
    ensures multiset(r) == multiset(v)
    ensures |r| == |v|
    ensures DescendingByLength(r)
    decreases |v|
  {
    if |v| == 0 then []
    else
      assert v == [v[0]] + v[1..];
      InsertKeepsDescending(v[0], SortByLengthDesc(v[1..]));
      InsertByLength(v[0], SortByLengthDesc(v[1..]))
  }

  /** The elements of length `n`, in their order. */
  function WithLength(v: seq<string>, n: nat): seq<string>
    decreases |v|
  {
    if |v| == 0 then []
    else (if |v[0]| == n then [v[0]] else []) + WithLength(v[1..], n)
  }

  lemma {:induction false} InsertWithLength(x: string, sorted: seq<string>, n: nat)
    ensures WithLength(InsertByLength(x, sorted), n) ==
            (if |x| == n then [x] else []) + WithLength(sorted, n)
    decreases |sorted|
  {
    var r := InsertByLength(x, sorted);
    if |sorted| == 0 || |x| >= |sorted[0]| {
      assert r[0] == x && r[1..] == sorted;
    } else {
      InsertWithLength(x, sorted[1..], n);
      assert r[0] == sorted[0] && r[1..] == InsertByLength(x, sorted[1..]);
    }
  }

  /** The sort is stable: the elements of any one length keep their order. */
  lemma {:induction false} SortIsStable(v: seq<string>, n: nat)
    ensures WithLength(SortByLengthDesc(v), n) == WithLength(v, n)
    decreases |v|
  {
    if |v| > 0 {
      SortIsStable(v[1..], n);
      InsertWithLength(v[0], SortByLengthDesc(v[1..]), n);
    }
  }

  lemma {:induction false} WithLengthMember(v: seq<string>, n: nat)
    requires WithLength(v, n) != []
    ensures exists k :: 0 <= k < |v| && |v[k]| == n
    ensures WithLength(v, n)[0] in v
    decreases |v|
  {
    if |v[0]| != n {
      WithLengthMember(v[1..], n);
      var k :| 0 <= k < |v[1..]| && |v[1..][k]| == n;
      assert v[k + 1] == v[1..][k];
    }
  }

  /** Two sequences ordered longest first that agree on the order of the
      elements of every length are equal: the stable sort's result is
      unique, so any stable sort by length gives the same list as this one. */
  lemma {:induction false} StableSortIsUnique(a: seq<string>, b: seq<string>)
    requires DescendingByLength(a) && DescendingByLength(b)
    requires forall n: nat :: WithLength(a, n) == WithLength(b, n)
    ensures a == b
    decreases |a|
  {
    if |a| > 0 && |b| > 0 {
      var la, lb := |a[0]|, |b[0]|;
      assert WithLength(a, la) == [a[0]] + WithLength(a[1..], la);
      assert WithLength(b, lb) == [b[0]] + WithLength(b[1..], lb);
      WithLengthMember(b, la);
      WithLengthMember(a, lb);
      assert la == lb;
      assert a[0] == b[0];
      forall n: nat ensures WithLength(a[1..], n) == WithLength(b[1..], n) {
        var pre := if la == n then [a[0]] else [];
        assert WithLength(a, n) == pre + WithLength(a[1..], n);
        assert WithLength(b, n) == pre + WithLength(b[1..], n);
        assert WithLength(a[1..], n) == WithLength(a, n)[|pre|..];
        assert WithLength(b[1..], n) == WithLength(b, n)[|pre|..];
      }
      StableSortIsUnique(a[1..], b[1..]);
    } else if |a| > 0 {
      WithLengthOfHead(a);
      assert false;
    } else if |b| > 0 {
      WithLengthOfHead(b);
      assert false;
    }
  }

  lemma WithLengthOfHead(v: seq<string>)
    requires |v| > 0
    ensures WithLength(v, |v[0]|) != []
  {
  }

  /** `v[k]` is the longest element of `v`, and every element before it is
      strictly shorter: the first of the longest. */
  predicate IsFirstLongest(v: seq<string>, k: int) {
    && 0 <= k < |v|
    && (forall j :: 0 <= j < |v| ==> |v[j]| <= |v[k]|)
    && (forall j :: 0 <= j < k ==> |v[j]| < |v[k]|)
  }

  lemma {:induction false} FirstWithLength(v: seq<string>, n: nat)
    requires WithLength(v, n) != []
    ensures exists k :: 0 <= k < |v| && v[k] == WithLength(v, n)[0] && |v[k]| == n &&
              forall j :: 0 <= j < k ==> |v[j]| != n
    decreases |v|
  {
    if |v[0]| != n {
      FirstWithLength(v[1..], n);
      var k :| 0 <= k < |v[1..]| && v[1..][k] == WithLength(v[1..], n)[0] && |v[1..][k]| == n &&
               forall j :: 0 <= j < k ==> |v[1..][j]| != n;
      assert v[k + 1] == v[1..][k];
      forall j | 0 <= j < k + 1 ensures |v[j]| != n {
        if j > 0 {
          assert v[j] == v[1..][j - 1];
        }
      }
    }
  }

  /** `valid[0]` after the sort is the first of the longest survivors. */
  lemma SortHeadIsFirstLongest(v: seq<string>)
    requires |v| > 0
    ensures exists k :: IsFirstLongest(v, k) && SortByLengthDesc(v)[0] == v[k]
  {
    var r := SortByLengthDesc(v);
    var n := |r[0]|;
    forall j | 0 <= j < |v| ensures |v[j]| <= n {
      assert v[j] in multiset(r);
      var b :| 0 <= b < |r| && r[b] == v[j];
    }
    assert WithLength(r, n) == [r[0]] + WithLength(r[1..], n);
    SortIsStable(v, n);
    FirstWithLength(v, n);
    var k :| 0 <= k < |v| && v[k] == WithLength(v, n)[0] && |v[k]| == n &&
             forall j :: 0 <= j < k ==> |v[j]| != n;
    assert IsFirstLongest(v, k);
  }
}
