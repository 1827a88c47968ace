/**
 * The ranking on the front page: the Coop offers followed by the ICA
 * offers, sorted by discount percentage, largest first.  Python's sort is
 * stable, also with `reverse=True`: offers with the same percentage keep
 * the order they had before sorting.
 */
module Ranking {
  import opened Offers

  /** Non-increasing by discount percentage. */
  predicate SortedDesc(s: seq<Offer>) {
    forall i, j :: 0 <= i < j < |s| ==> s[i].pctOff >= s[j].pctOff
  }

  /** The offers with percentage `p`, in their order in `s`. */
  function WithPct(s: seq<Offer>, p: real): seq<Offer> {
    if s == [] then []
    else WithPct(s[..|s| - 1], p) + (if s[|s| - 1].pctOff == p then [s[|s| - 1]] else [])
  }

  /** `x` placed after every offer of `s` whose percentage is at least its
      own: before the first smaller one. */
  function Insert(x: Offer, s: seq<Offer>): (r: seq<Offer>)
    ensures |r| == |s| + 1
    ensures r[0] == if s == [] || s[0].pctOff < x.pctOff then x else s[0]
  {
    if s == [] then [x]
    else if s[0].pctOff >= x.pctOff then
      assert s == [s[0]] + s[1..];
      [s[0]] + Insert(x, s[1..])
    else [x] + s
  }

  /** Inserting adds `x` and loses nothing. */
  lemma {:induction false} InsertPermutes(x: Offer, s: seq<Offer>)
    ensures multiset(Insert(x, s)) == multiset(s) + multiset{x}
  {
    if s != [] && s[0].pctOff >= x.pctOff {
      InsertPermutes(x, s[1..]);
      assert s == [s[0]] + s[1..];
    }
  }

  /** Inserting into a sorted list keeps it sorted. */
  lemma {:induction false} InsertSorted(x: Offer, s: seq<Offer>)
    requires SortedDesc(s)
    ensures SortedDesc(Insert(x, s))
  {
    var r := Insert(x, s);
    if s != [] && s[0].pctOff >= x.pctOff {
      var rest := Insert(x, s[1..]);
      SortedDescTail(s);
      InsertSorted(x, s[1..]);
      assert rest[0].pctOff <= s[0].pctOff by {
        if |s| >= 2 {
          assert s[1..][0] == s[1];
        }
      }
      assert r == [s[0]] + rest;
      forall i, j | 0 <= i < j < |r|
        ensures r[i].pctOff >= r[j].pctOff
      {
        assert r[j] == rest[j - 1];
        if i > 0 {
          assert r[i] == rest[i - 1];
        } else if j > 1 {
          assert rest[0].pctOff >= rest[j - 1].pctOff;
        }
      }
    } else if s != [] {
      assert r == [x] + s;
      forall i, j | 0 <= i < j < |r|
        ensures r[i].pctOff >= r[j].pctOff
      {
        assert r[j] == s[j - 1];
        if i > 0 {
          assert r[i] == s[i - 1];
        } else {
          assert s[0].pctOff >= s[j - 1].pctOff || j == 1;
        }
      }
    }
  }

  /** The stable sort, largest percentage first: each offer, taken from the
      front, is placed after the equal ones already placed. */
  function SortDesc(s: seq<Offer>): (r: seq<Offer>)
    ensures multiset(r) == multiset(s)
    ensures SortedDesc(r)
  {
    if s == [] then []
    else
      assert s == s[..|s| - 1] + [s[|s| - 1]];
      InsertSorted(s[|s| - 1], SortDesc(s[..|s| - 1]));
      InsertPermutes(s[|s| - 1], SortDesc(s[..|s| - 1]));
      Insert(s[|s| - 1], SortDesc(s[..|s| - 1]))
  }

  /** The deals list of the front page. */
  function Deals(coop: seq<Offer>, ica: seq<Offer>): (d: seq<Offer>)
    ensures multiset(d) == multiset(coop) + multiset(ica)
    ensures SortedDesc(d)
  {
    SortDesc(coop + ica)
  }

  /** Every offer is kept, none is added or changed, and the list is
      non-increasing by percentage. */
  lemma {:induction false} DealsPermutation(coop: seq<Offer>, ica: seq<Offer>)
    ensures multiset(Deals(coop, ica)) == multiset(coop) + multiset(ica)
    ensures |Deals(coop, ica)| == |coop| + |ica|
    ensures forall o :: o in Deals(coop, ica) <==> o in coop || o in ica
    ensures SortedDesc(Deals(coop, ica))
  {
    var d := Deals(coop, ica);
    assert multiset(d) == multiset(coop + ica);
    assert |d| == |multiset(d)|;
    forall o
      ensures o in d <==> o in coop || o in ica
    {
      assert o in d <==> o in multiset(d);
      assert o in coop + ica <==> o in multiset(coop + ica);
    }
  }

  lemma {:induction false} WithPctAppend(s: seq<Offer>, t: seq<Offer>, p: real)
    ensures WithPct(s + t, p) == WithPct(s, p) + WithPct(t, p)
    decreases |t|
  {
    if t == [] {
      assert s + t == s;
    } else {
      var init := t[..|t| - 1];
      assert (s + t)[..|s + t| - 1] == s + init;
      assert (s + t)[|s + t| - 1] == t[|t| - 1];
      WithPctAppend(s, init, p);
    }
  }

  /** No offer with percentage `p` when none is at least `p`. */
  lemma {:induction false} WithPctBelow(s: seq<Offer>, p: real)
    requires forall k :: 0 <= k < |s| ==> s[k].pctOff < p
    ensures WithPct(s, p) == []
  {
    if s != [] {
      WithPctBelow(s[..|s| - 1], p);
    }
  }

  /** Inserting into a sorted list puts `x` behind the offers with its own
      percentage, and changes no other percentage's order. */
  lemma {:induction false} InsertWithPct(x: Offer, s: seq<Offer>, p: real)
    requires SortedDesc(s)
    ensures WithPct(Insert(x, s), p) == WithPct(s, p) + WithPct([x], p)
    decreases |s|
  {
    if s == [] {
      assert Insert(x, s) == [x];
      assert WithPct(s, p) == [];
    } else if s[0].pctOff >= x.pctOff {
      SortedDescTail(s);
      InsertWithPct(x, s[1..], p);
      InsertBehindHead(x, s, p);
    } else {
      InsertInFront(x, s, p);
    }
  }

  /** The step of InsertWithPct where `x` goes behind the head of `s`. */
  lemma {:induction false} InsertBehindHead(x: Offer, s: seq<Offer>, p: real)
    requires s != [] && s[0].pctOff >= x.pctOff
    requires WithPct(Insert(x, s[1..]), p) == WithPct(s[1..], p) + WithPct([x], p)
    ensures WithPct(Insert(x, s), p) == WithPct(s, p) + WithPct([x], p)
  {
    var rest := Insert(x, s[1..]);
    var w0 := WithPct([s[0]], p);
    assert WithPct(Insert(x, s), p) == w0 + WithPct(rest, p) by {
      assert Insert(x, s) == [s[0]] + rest;
      WithPctAppend([s[0]], rest, p);
    }
    assert WithPct(s, p) == w0 + WithPct(s[1..], p) by {
      assert s == [s[0]] + s[1..];
      WithPctAppend([s[0]], s[1..], p);
    }
    assert w0 + (WithPct(s[1..], p) + WithPct([x], p)) == (w0 + WithPct(s[1..], p)) + WithPct([x], p);
  }

  /** The step of InsertWithPct where `x` goes in front of a sorted `s`. */
  lemma {:induction false} InsertInFront(x: Offer, s: seq<Offer>, p: real)
    requires SortedDesc(s) && s != [] && s[0].pctOff < x.pctOff
    ensures WithPct(Insert(x, s), p) == WithPct(s, p) + WithPct([x], p)
  {
    assert Insert(x, s) == [x] + s;
    WithPctAppend([x], s, p);
    if x.pctOff == p {
      assert forall k :: 0 <= k < |s| ==> s[k].pctOff < p by {
        forall k | 0 <= k < |s|
          ensures s[k].pctOff < p
        {
          assert k == 0 || s[0].pctOff >= s[k].pctOff;
        }
      }
      WithPctBelow(s, p);
    }
  }

  lemma {:induction false} SortedDescTail(s: seq<Offer>)
    requires SortedDesc(s) && s != []
    ensures SortedDesc(s[1..])
  {
    forall i, j | 0 <= i < j < |s| - 1
      ensures s[1..][i].pctOff >= s[1..][j].pctOff
    {
      assert s[1..][i] == s[i + 1] && s[1..][j] == s[j + 1];
    }
  }

  /** The sort is stable: the offers with any one percentage come out in
      their order before sorting. */
  lemma {:induction false} SortDescStable(s: seq<Offer>, p: real)
    ensures WithPct(SortDesc(s), p) == WithPct(s, p)
  {
    if s != [] {
      var init := s[..|s| - 1];
      SortDescStable(init, p);
      var last := s[|s| - 1];
      InsertWithPct(last, SortDesc(init), p);
      assert WithPct([last], p) == if last.pctOff == p then [last] else [];
    }
  }

  /** On a tie the Coop offers come first, each store's in its own order. */
  lemma {:induction false} DealsTies(coop: seq<Offer>, ica: seq<Offer>, p: real)
    ensures WithPct(Deals(coop, ica), p) == WithPct(coop, p) + WithPct(ica, p)
  {
    SortDescStable(coop + ica, p);
    WithPctAppend(coop, ica, p);
  }

  /** A list that is sorted, and holds each percentage's offers of `s` in
      their order in `s`, is the sort: nothing else has both properties. */
  lemma {:induction false} SortDescUnique(s: seq<Offer>, r: seq<Offer>)
    requires SortedDesc(r)
    requires forall p :: WithPct(r, p) == WithPct(s, p)
    ensures r == SortDesc(s)
  {
    var q := SortDesc(s);
    forall p
      ensures WithPct(r, p) == WithPct(q, p)
    {
      SortDescStable(s, p);
    }
    SortedSamePctRunsEqual(r, q);
  }

  /** Two sorted lists with the same offers of each percentage, in the same
      order, are equal. */
  lemma {:induction false} SortedSamePctRunsEqual(r: seq<Offer>, q: seq<Offer>)
    requires SortedDesc(r) && SortedDesc(q)
    requires forall p :: WithPct(r, p) == WithPct(q, p)
    ensures r == q
    decreases |r| + |q|
  {
    LastHasPct(r);
    LastHasPct(q);
    if r != [] && q == [] {
      assert false;
    } else if r == [] && q != [] {
      assert false;
    } else if r != [] {
      var a := r[|r| - 1];
      var b := q[|q| - 1];
      var r' := r[..|r| - 1];
      var q' := q[..|q| - 1];
      assert a.pctOff == b.pctOff by {
        SortedLastIsMin(r, q, a, b);
        SortedLastIsMin(q, r, b, a);
      }
      assert a == b && forall p :: WithPct(r', p) == WithPct(q', p) by {
        DropLast(r, q, r', q', a.pctOff);
      }
      assert r' == q' by {
        SortedDescPrefix(r);
        SortedDescPrefix(q);
        SortedSamePctRunsEqual(r', q');
      }
      assert r == r' + [a];
      assert q == q' + [b];
    }
  }

  /** Two lists whose last offers have the same percentage `m`, and with
      the same offers of each percentage, end in the same offer and agree
      on each percentage without it. */
  lemma {:induction false} DropLast(r: seq<Offer>, q: seq<Offer>, r': seq<Offer>, q': seq<Offer>, m: real)
    requires r != [] && q != [] && r' == r[..|r| - 1] && q' == q[..|q| - 1]
    requires r[|r| - 1].pctOff == m && q[|q| - 1].pctOff == m
    requires forall p :: WithPct(r, p) == WithPct(q, p)
    ensures r[|r| - 1] == q[|q| - 1]
    ensures forall p :: WithPct(r', p) == WithPct(q', p)
  {
    var x := WithPct(r', m);
    var y := WithPct(q', m);
    assert x + [r[|r| - 1]] == y + [q[|q| - 1]] by {
      assert WithPct(r, m) == WithPct(q, m);
    }
    assert |x| == |y|;
    assert (x + [r[|r| - 1]])[|x|] == r[|r| - 1];
    assert (y + [q[|q| - 1]])[|y|] == q[|q| - 1];
    assert x == (x + [r[|r| - 1]])[..|x|];
    assert y == (y + [q[|q| - 1]])[..|y|];
    assert x == y;
    forall p
      ensures WithPct(r', p) == WithPct(q', p)
    {
      if p != m {
        assert WithPct(r, p) == WithPct(r', p) + [];
        assert WithPct(q, p) == WithPct(q', p) + [];
        assert WithPct(r, p) == WithPct(q, p);
        assert WithPct(r', p) + [] == WithPct(r', p);
        assert WithPct(q', p) + [] == WithPct(q', p);
      } else {
        assert WithPct(r', p) == x;
      }
    }
  }

  /** A non-empty list has an offer with the percentage of its last one. */
  lemma {:induction false} LastHasPct(s: seq<Offer>)
    ensures s != [] ==> WithPct(s, s[|s| - 1].pctOff) != []
  {
  }

  lemma {:induction false} SortedDescPrefix(s: seq<Offer>)
    requires SortedDesc(s) && s != []
    ensures SortedDesc(s[..|s| - 1])
  {
    var init := s[..|s| - 1];
    forall i, j | 0 <= i < j < |init|
      ensures init[i].pctOff >= init[j].pctOff
    {
      assert init[i] == s[i] && init[j] == s[j];
    }
  }

  /** An offer at index `k` shows up among the offers with its percentage. */
  lemma {:induction false} WithPctHas(s: seq<Offer>, k: nat)
    requires k < |s|
    ensures s[k] in WithPct(s, s[k].pctOff)
    decreases |s|
  {
    if k < |s| - 1 {
      WithPctHas(s[..|s| - 1], k);
      assert s[..|s| - 1][k] == s[k];
    }
  }

  /** Every offer among those with percentage `p` has percentage `p` and
      comes from the list. */
  lemma {:induction false} WithPctMembers(s: seq<Offer>, p: real)
    ensures forall o :: o in WithPct(s, p) ==> o.pctOff == p && o in s
  {
    if s != [] {
      WithPctMembers(s[..|s| - 1], p);
      forall o | o in WithPct(s, p)
        ensures o.pctOff == p && o in s
      {
        if o in WithPct(s[..|s| - 1], p) {
          var k :| 0 <= k < |s| - 1 && s[..|s| - 1][k] == o;
          assert s[k] == o;
        }
      }
    }
  }

  /** The last offer of a sorted list has the smallest percentage; with the
      same offers per percentage in `q`, the last of `q` is not smaller. */
  lemma {:induction false} SortedLastIsMin(r: seq<Offer>, q: seq<Offer>, a: Offer, b: Offer)
    requires SortedDesc(r) && SortedDesc(q) && r != [] && q != []
    requires a == r[|r| - 1] && b == q[|q| - 1]
    requires forall p :: WithPct(r, p) == WithPct(q, p)
    ensures a.pctOff <= b.pctOff
  {
    WithPctHas(q, |q| - 1);
    assert b in WithPct(r, b.pctOff);
    WithPctMembers(r, b.pctOff);
    var k :| 0 <= k < |r| && r[k] == b;
    assert k == |r| - 1 || r[k].pctOff >= r[|r| - 1].pctOff;
  }

  /** A small ranking: 30 % from Coop and 30 % from ICA keep Coop first,
      and 50 % goes before both. */
  lemma {:induction false} RankingExample(c1: Offer, i1: Offer, i2: Offer)
    requires c1.pctOff == 30.0 && i1.pctOff == 50.0 && i2.pctOff == 30.0
    ensures Deals([c1], [i1, i2]) == [i1, c1, i2]
  {
    var s := [c1] + [i1, i2];
    var r := [i1, c1, i2];
    assert s == [c1, i1, i2];
    forall p
      ensures WithPct(r, p) == WithPct(s, p)
    {
      SwapDistinctPct(i1, c1, i2, p);
    }
    SortDescUnique(s, r);
  }

  /** Two neighbours with different percentages can trade places without
      changing the offers of any one percentage. */
  lemma {:induction false} SwapDistinctPct(a: Offer, b: Offer, c: Offer, p: real)
    requires a.pctOff != b.pctOff
    ensures WithPct([a, b, c], p) == WithPct([b, a, c], p)
  {
    assert [a, b, c] == [a] + [b] + [c];
    assert [b, a, c] == [b] + [a] + [c];
    WithPctAppend([a] + [b], [c], p);
    WithPctAppend([a], [b], p);
    WithPctAppend([b] + [a], [c], p);
    WithPctAppend([b], [a], p);
    assert WithPct([a], p) == [] || WithPct([b], p) == [] by {
      assert [a][..0] == [] && [b][..0] == [];
    }
  }
}
