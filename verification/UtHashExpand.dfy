/** HASH_EXPAND_BUCKETS: twice as many buckets, and every item moved to its new place. */
module UtHashExpand {
  import Arith
  import opened UtHashList
  import opened UtHashBuckets
  import opened Sequences

  /** The chain as it can still be walked while items are taken off its head. */
  ghost predicate Walkable(c: seq<Node>)
    reads c`hhNext
  {
    forall i {:trigger c[i].hhNext} :: 0 <= i < |c| ==> c[i].hhNext == At(c, i + 1)
  }

  function Prefix(c: seq<Node>, k: nat): set<Node>
    requires k <= |c|
  {
    set x | x in c[..k]
  }

  /** The expand_mult of a new bucket that n items have been moved to. */
  function ExpandMult(n: nat, ideal: nat): nat {
    if n == 0 then 0
    else
      var m := ExpandMult(n - 1, ideal);
      if n > ideal && n > m * ideal then m + 1 else m
  }

  /** That is 0 for chains of ideal length, and else n / ideal rounded up, but not more than
      the items in excess. */
  lemma {:induction false} ExpandMultIs(n: nat, ideal: nat)
    requires ideal > 0
    ensures var m := ExpandMult(n, ideal);
      if n <= ideal then m == 0
      else 0 < m <= n - ideal && (m - 1) * ideal < n && (m == n - ideal || n <= m * ideal)
  {
    var m := ExpandMult(n, ideal);
    MultWithin(n, ideal);
    Arith.Distribute(m, -1, ideal);
  }

  lemma {:induction false} MultWithin(n: nat, ideal: nat)
    requires ideal > 0
    ensures Within(n, ideal, ExpandMult(n, ideal), ExpandMult(n, ideal) * ideal)
  {
    if n > 0 {
      MultWithin(n - 1, ideal);
      var m := ExpandMult(n - 1, ideal);
      Arith.Distribute(m, 1, ideal);
      OneMore(n, ideal, m, m * ideal);
    } else {
      assert ExpandMult(0, ideal) * ideal == 0;
    }
  }

  predicate Within(n: int, ideal: int, m: int, p: int) {
    if n <= ideal then m == 0 && p == 0 else 0 < m <= n - ideal && p - ideal < n && (m == n - ideal || n <= p)
  }

  lemma OneMore(n: nat, ideal: nat, m: nat, p: int)
    requires n > 0 && ideal > 0 && Within(n - 1, ideal, m, p)
    ensures if n > ideal && n > p then Within(n, ideal, m + 1, p + ideal) else Within(n, ideal, m, p)
  {}

  ghost predicate Mults(bs: seq<Bucket>, chains: seq<seq<Node>>, ideal: nat) {
    |bs| == |chains| && forall b :: 0 <= b < |bs| ==> bs[b].expandMult == ExpandMult(|chains[b]|, ideal)
  }

  lemma MultsPushed(was: seq<Bucket>, bs: seq<Bucket>, chains: seq<seq<Node>>, b: nat, n: Node, ideal: nat)
    requires Mults(was, chains, ideal) && b < |was| == |bs| && was[b].count == |chains[b]|
    requires var c, m := was[b].count + 1, was[b].expandMult;
      bs == was[b := Bucket(n, c, if c > ideal && c > m * ideal then m + 1 else m)]
    ensures Mults(bs, Pushed(chains, b, n), ideal)
  {}

  lemma Counts(bs: seq<Bucket>, chains: seq<seq<Node>>, members: set<Node>)
    requires Filed(bs, chains, members)
    ensures |bs| == |chains| && forall b :: 0 <= b < |bs| ==> bs[b].count == |chains[b]|
  {
    forall b | 0 <= b < |bs| ensures bs[b].count == |chains[b]| {
      assert BucketOk(bs[b], chains[b], members, b, |chains|);
    }
  }

  /** What holds while one old chain c is moved: its first k items are in the new buckets. */
  ghost predicate MovingChain(bs: seq<Bucket>, chains: seq<seq<Node>>, moved: set<Node>,
                              c: seq<Node>, k: nat, thh: Node?, ideal: nat, nonideal: nat)
    reads moved`hhPrev, moved`hhNext, moved`hashv, c`hhPrev, c`hhNext, c`hashv
  {
    && k <= |c| && thh == At(c, k) && Distinct(c) && Walkable(c[k..])
    && Filed(bs, chains, moved + Prefix(c, k))
    && (forall i | 0 <= i < |c| :: c[i] !in moved)
    && nonideal == Excess(chains, ideal) && Mults(bs, chains, ideal)
  }

  lemma NextItem(c: seq<Node>, moved: set<Node>, k: nat)
    requires k < |c| && Distinct(c) && forall i | 0 <= i < |c| :: c[i] !in moved
    ensures c[k] !in moved + Prefix(c, k)
    ensures moved + Prefix(c, k) + {c[k]} == moved + Prefix(c, k + 1)
  {
    assert c[..k + 1] == c[..k] + [c[k]];
  }

  lemma Unfold(bs: seq<Bucket>, chains: seq<seq<Node>>, moved: set<Node>,
               c: seq<Node>, k: nat, thh: Node, ideal: nat, nonideal: nat)
    requires MovingChain(bs, chains, moved, c, k, thh, ideal, nonideal)
    ensures k < |c| && thh == c[k] && thh.hhNext == At(c, k + 1) && Filed(bs, chains, moved + Prefix(c, k))
    ensures c[k] !in moved + Prefix(c, k) && Walkable(c[k + 1..]) && Distinct(c)
    ensures thh !in c[k + 1..]
    ensures nonideal == Excess(chains, ideal) && Mults(bs, chains, ideal)
    ensures forall i | 0 <= i < |c| :: c[i] !in moved
  {
    hide Excess, ExpandMult;
    var d, e := c[k..], c[k + 1..];
    assert d[0] == c[k];
    forall i | 0 <= i < |e| ensures e[i].hhNext == At(e, i + 1) {
      assert e[i] == d[i + 1];
    }
    NextItem(c, moved, k);
  }

  /** Move the item at the head of the rest of c. */
  method MoveItem(bs: array<Bucket>, thh: Node, ideal: nat, nonideal: nat, ghost chains: seq<seq<Node>>,
                  ghost moved: set<Node>, ghost c: seq<Node>, ghost k: nat)
    returns (next: Node?, nonideal': nat, ghost chains': seq<seq<Node>>)
    requires MovingChain(bs[..], chains, moved, c, k, thh, ideal, nonideal)
    modifies bs, moved`hhPrev, c`hhPrev, c`hhNext
    ensures k < |c| && |chains'| == |chains|
    ensures MovingChain(bs[..], chains', moved, c, k + 1, next, ideal, nonideal')
  {
    hide *;
    Unfold(bs[..], chains, moved, c, k, thh, ideal, nonideal);
    PrefixIn(c, k);
    next := thh.hhNext;
    ghost var was := bs[..];
    Counts(was, chains, moved + Prefix(c, k));
    var b := Push(bs, thh, chains, moved + Prefix(c, k));
    chains' := Pushed(chains, b, thh);
    ghost var mid := bs[..];
    PushedCounts(mid, chains, moved + Prefix(c, k), b, thh, ideal);
    nonideal' := nonideal;
    if bs[b].count > ideal {
      nonideal' := nonideal' + 1;
      if bs[b].count > bs[b].expandMult * ideal {
        bs[b] := bs[b].(expandMult := bs[b].expandMult + 1);
        assert bs[..] == mid[b := bs[b]];
      }
    }
    MultsPushed(was, bs[..], chains, b, thh, ideal);
    Moved(mid, bs[..], chains', moved, c, k, thh, next, b, ideal, nonideal');
  }

  lemma PrefixIn(c: seq<Node>, k: nat)
    requires k <= |c|
    ensures forall x | x in Prefix(c, k) :: x in c
  {}

  lemma PushedCounts(bs: seq<Bucket>, chains: seq<seq<Node>>, members: set<Node>, b: nat, n: Node, ideal: nat)
    requires b < |chains| && Filed(bs, Pushed(chains, b, n), members + {n})
    ensures |bs| == |chains| == |Pushed(chains, b, n)|
    ensures Excess(Pushed(chains, b, n), ideal) == Excess(chains, ideal) + if bs[b].count > ideal then 1 else 0
  {
    var c' := Pushed(chains, b, n);
    assert BucketOk(bs[b], c'[b], members + {n}, b, |chains|);
    ExcessUpdate(chains, b, [n] + chains[b], ideal);
  }

  lemma Moved(mid: seq<Bucket>, bs: seq<Bucket>, chains': seq<seq<Node>>, moved: set<Node>,
              c: seq<Node>, k: nat, thh: Node, next: Node?, b: nat, ideal: nat, nonideal: nat)
    requires k < |c| && thh == c[k] && next == At(c, k + 1) && Distinct(c) && Walkable(c[k + 1..])
    requires Filed(mid, chains', moved + Prefix(c, k) + {thh}) && forall i | 0 <= i < |c| :: c[i] !in moved
    requires b < |mid| && (bs == mid || exists m: nat :: bs == mid[b := mid[b].(expandMult := m)])
    requires nonideal == Excess(chains', ideal) && Mults(bs, chains', ideal)
    ensures MovingChain(bs, chains', moved, c, k + 1, next, ideal, nonideal)
  {
    NextItem(c, moved, k);
    hide Excess, Collects, Chained, Mults;
    var members := moved + Prefix(c, k + 1);
    forall b' | 0 <= b' < |chains'| ensures BucketOk(bs[b'], chains'[b'], members, b', |chains'|) {
      assert BucketOk(mid[b'], chains'[b'], members, b', |chains'|);
    }
  }

  /** The inner loop: all of one old chain. */
  method MoveChain(bs: array<Bucket>, thh0: Node?, ideal: nat, nonideal0: nat, ghost chains0: seq<seq<Node>>,
                   ghost moved: set<Node>, ghost c: seq<Node>)
    returns (nonideal: nat, ghost chains: seq<seq<Node>>)
    requires MovingChain(bs[..], chains0, moved, c, 0, thh0, ideal, nonideal0)
    modifies bs, moved`hhPrev, c`hhPrev, c`hhNext
    ensures Filed(bs[..], chains, moved + Prefix(c, |c|)) && nonideal == Excess(chains, ideal)
    ensures |chains| == |chains0| && Mults(bs[..], chains, ideal)
  {
    hide *;
    var thh := thh0;
    ghost var k: nat := 0;
    nonideal, chains := nonideal0, chains0;
    while thh != null
      invariant k <= |c| && |chains| == |chains0|
      invariant MovingChain(bs[..], chains, moved, c, k, thh, ideal, nonideal)
      decreases |c| - k
    {
      thh, nonideal, chains := MoveItem(bs, thh, ideal, nonideal, chains, moved, c, k);
      k := k + 1;
    }
    ChainMoved(bs[..], chains, moved, c, k, ideal, nonideal);
  }

  lemma ChainMoved(bs: seq<Bucket>, chains: seq<seq<Node>>, moved: set<Node>,
                   c: seq<Node>, k: nat, ideal: nat, nonideal: nat)
    requires MovingChain(bs, chains, moved, c, k, null, ideal, nonideal)
    ensures k == |c| && Filed(bs, chains, moved + Prefix(c, k))
    ensures nonideal == Excess(chains, ideal) && Mults(bs, chains, ideal)
  {
    hide Filed, Excess, Mults;
  }

  // ---- All chains

  /** The members of the first b of n buckets. */
  ghost function Below(members: set<Node>, n: nat, b: nat): set<Node>
    requires n > 0
    reads members`hashv
  {
    set x | x in members && BucketOf(x.hashv, n) < b
  }

  /** The old chains from b on can still be walked, and hold only items of rest. */
  ghost predicate Ahead(bs: seq<Bucket>, chains: seq<seq<Node>>, b: nat, rest: set<Node>)
    requires |bs| == |chains|
    reads rest`hhNext
  {
    forall b' | b <= b' < |chains| ::
      (forall x | x in chains[b'] :: x in rest) && bs[b'].hhHead == At(chains[b'], 0) && Walkable(chains[b'])
  }

  /** What holds between two old chains. */
  ghost predicate Moving(bs: seq<Bucket>, chains: seq<seq<Node>>, old': seq<Bucket>, oldChains: seq<seq<Node>>,
                         members: set<Node>, b: nat, ideal: nat, nonideal: nat)
    reads members`hhPrev, members`hhNext, members`hashv
  {
    && 0 < |old'| == |oldChains| && b <= |oldChains| && |chains| == 2 * |oldChains|
    && AllCollect(oldChains, members) && AllDistinct(oldChains)
    && Filed(bs, chains, Below(members, |oldChains|, b))
    && Ahead(old', oldChains, b, members - Below(members, |oldChains|, b))
    && nonideal == Excess(chains, ideal) && Mults(bs, chains, ideal)
  }

  lemma ChainReady(bs: seq<Bucket>, chains: seq<seq<Node>>, old': seq<Bucket>, oldChains: seq<seq<Node>>,
                   members: set<Node>, b: nat, ideal: nat, nonideal: nat)
    requires Moving(bs, chains, old', oldChains, members, b, ideal, nonideal) && b < |oldChains|
    ensures var n, c := |oldChains|, oldChains[b];
      && |old'| == n && |chains| == 2 * n && old'[b].hhHead == At(c, 0)
      && MovingChain(bs, chains, Below(members, n, b), c, 0, old'[b].hhHead, ideal, nonideal)
      && Below(members, n, b + 1) == Below(members, n, b) + Prefix(c, |c|)
      && Ahead(old', oldChains, b + 1, members - Below(members, n, b + 1))
      && Below(members, n, b) <= members
      && (forall i | 0 <= i < |c| :: c[i] in members && c[i] !in members - Below(members, n, b + 1))
  {
    hide Filed, Excess, BucketOf, Distinct, Mults;
    var n, c := |oldChains|, oldChains[b];
    assert c[0..] == c && c[..|c|] == c;
    assert Collects(c, members, b, n);
    forall b' | b < b' < n ensures forall x | x in oldChains[b'] :: x in members - Below(members, n, b + 1) {
      assert Collects(oldChains[b'], members, b', n);
    }
    assert Below(members, n, b) + Prefix(c, 0) == Below(members, n, b);
  }

  lemma {:induction false} EmptyExcess(n: nat, k: nat)
    ensures Excess(seq(n, _ => []), k) == 0
  {
    if n > 0 {
      var s: seq<seq<Node>> := seq(n, _ => []);
      assert s[..n - 1] == seq(n - 1, _ => []);
      EmptyExcess(n - 1, k);
    }
  }

  lemma MovingBegins(bs: seq<Bucket>, old': seq<Bucket>, oldChains: seq<seq<Node>>, members: set<Node>, ideal: nat)
    requires Filed(old', oldChains, members) && bs == seq(2 * |old'|, _ => Bucket(null, 0, 0))
    ensures Moving(bs, seq(2 * |old'|, _ => []), old', oldChains, members, 0, ideal, 0)
  {
    hide BucketOf;
    var n := |old'|;
    var chains: seq<seq<Node>> := seq(2 * n, _ => []);
    EmptyExcess(2 * n, 0);
    EmptyExcess(2 * n, ideal);
    assert Below(members, n, 0) == {};
    assert members - {} == members;
    forall b | 0 <= b < |chains| ensures BucketOk(bs[b], chains[b], {}, b, |chains|) {
      assert bs[b] == Bucket(null, 0, 0) && chains[b] == [];
    }
    forall b | 0 <= b < n
      ensures Collects(oldChains[b], members, b, n) && ChainOk(old'[b], oldChains[b])
    {
      assert BucketOk(old'[b], oldChains[b], members, b, n);
    }
  }

  lemma MovingStep(bs: seq<Bucket>, chains: seq<seq<Node>>, old': seq<Bucket>, oldChains: seq<seq<Node>>,
                   members: set<Node>, b: nat, ideal: nat, nonideal: nat)
    requires 0 < |old'| == |oldChains| && b < |oldChains| && |chains| == 2 * |oldChains|
    requires AllCollect(oldChains, members) && AllDistinct(oldChains)
    requires Filed(bs, chains, Below(members, |oldChains|, b) + Prefix(oldChains[b], |oldChains[b]|))
    requires Below(members, |oldChains|, b + 1)
          == Below(members, |oldChains|, b) + Prefix(oldChains[b], |oldChains[b]|)
    requires Ahead(old', oldChains, b + 1, members - Below(members, |oldChains|, b + 1))
    requires nonideal == Excess(chains, ideal) && Mults(bs, chains, ideal)
    ensures Moving(bs, chains, old', oldChains, members, b + 1, ideal, nonideal)
  {
    hide Mults;
  }

  lemma MovingEnds(bs: seq<Bucket>, chains: seq<seq<Node>>, old': seq<Bucket>, oldChains: seq<seq<Node>>,
                   members: set<Node>, ideal: nat, nonideal: nat)
    requires Moving(bs, chains, old', oldChains, members, |oldChains|, ideal, nonideal)
    ensures Filed(bs, chains, members) && |chains| == 2 * |oldChains|
    ensures nonideal == Excess(chains, ideal) && Mults(bs, chains, ideal)
  {
    hide Filed, Excess, Collects, Mults;
    assert Below(members, |oldChains|, |oldChains|) == members;
  }

  lemma MovingParts(bs: seq<Bucket>, chains: seq<seq<Node>>, old': seq<Bucket>, oldChains: seq<seq<Node>>,
                    members: set<Node>, b: nat, ideal: nat, nonideal: nat)
    requires Moving(bs, chains, old', oldChains, members, b, ideal, nonideal)
    ensures 0 < |old'| == |oldChains| && |chains| == 2 * |oldChains|
    ensures AllCollect(oldChains, members) && AllDistinct(oldChains)
  {}

  predicate AllDistinct(chains: seq<seq<Node>>) { forall b | 0 <= b < |chains| :: Distinct(chains[b]) }

  /** The items of all old chains, filed anew in twice as many buckets.
      Items that exceed the ideal chain length are counted. */
  method Redistribute(old': array<Bucket>, ideal: nat, ghost oldChains: seq<seq<Node>>, ghost members: set<Node>)
    returns (bs: array<Bucket>, nonideal: nat, ghost chains: seq<seq<Node>>)
    requires Filed(old'[..], oldChains, members)
    modifies members`hhPrev, members`hhNext
    ensures fresh(bs) && bs.Length == 2 * old'.Length
    ensures Filed(bs[..], chains, members) && |chains| == bs.Length && nonideal == Excess(chains, ideal)
    ensures Mults(bs[..], chains, ideal)
  {
    hide *;
    ghost var was, n := old'[..], old'.Length;
    bs := new Bucket[2 * old'.Length](_ => Bucket(null, 0, 0));
    assert bs[..] == seq(2 * n, _ => Bucket(null, 0, 0));
    nonideal, chains := 0, seq(2 * n, _ => []);
    MovingBegins(bs[..], was, oldChains, members, ideal);
    MovingParts(bs[..], chains, was, oldChains, members, 0, ideal, 0);
    var i := 0;
    while i < old'.Length
      invariant i <= n == |oldChains| && old'[..] == was && fresh(bs) && bs.Length == 2 * n
      invariant Moving(bs[..], chains, was, oldChains, members, i, ideal, nonideal)
    {
      ChainReady(bs[..], chains, was, oldChains, members, i, ideal, nonideal);
      MovingParts(bs[..], chains, was, oldChains, members, i, ideal, nonideal);
      assert old'[i] == was[i];
      nonideal, chains :=
        MoveChain(bs, old'[i].hhHead, ideal, nonideal, chains, Below(members, n, i), oldChains[i]);
      MovingStep(bs[..], chains, was, oldChains, members, i, ideal, nonideal);
      i := i + 1;
    }
    MovingEnds(bs[..], chains, was, oldChains, members, ideal, nonideal);
  }

}
