/** The bucket chains of uthash.h. */
module UtHashBuckets {
  import Arith
  import opened Bits
  import opened UtHashList
  import opened Sequences

  /** UT_hash_bucket. */
  datatype Bucket = Bucket(hhHead: Node?, count: nat, expandMult: nat)

  /** HASH_TO_BKT. */
  function BucketOf(hashv: nat, numBuckets: nat): (b: nat)
    requires numBuckets > 0
    ensures b < numBuckets
  {
    MaskBound(hashv, numBuckets - 1);
    And(hashv, numBuckets - 1)
  }

  /** For a power of two, the remainder. */
  lemma BucketIsRemainder(hashv: nat, log2: nat)
    ensures BucketOf(hashv, Pow2(log2)) == hashv % Pow2(log2)
  {
    MaskIsRemainder(hashv, log2);
  }

  // ---- One chain

  ghost predicate Chained(c: seq<Node>)
    reads c`hhPrev, c`hhNext
  {
    && (forall i {:trigger c[i].hhPrev} :: 0 <= i < |c| ==> c[i].hhPrev == At(c, i - 1))
    && (forall i {:trigger c[i].hhNext} :: 0 <= i < |c| ==> c[i].hhNext == At(c, i + 1))
  }

  /** What HASH_FSCK checks of one bucket. */
  ghost predicate ChainOk(bkt: Bucket, c: seq<Node>)
    reads c`hhPrev, c`hhNext
  {
    bkt.hhHead == At(c, 0) && bkt.count == |c| && Distinct(c) && Chained(c)
  }

  /** HASH_ADD_TO_BKT up to the expansion test, on a bucket with chain c. */
  method PushChain(bkt: Bucket, n: Node, ghost c: seq<Node>) returns (bkt': Bucket)
    requires ChainOk(bkt, c) && n !in c
    modifies n`hhPrev, n`hhNext, (if bkt.hhHead == null then {} else {bkt.hhHead})`hhPrev
    ensures ChainOk(bkt', [n] + c) && bkt' == Bucket(n, bkt.count + 1, bkt.expandMult)
  {
    n.hhNext := bkt.hhHead;
    n.hhPrev := null;
    if bkt.hhHead != null {
      bkt.hhHead.hhPrev := n;
    }
    bkt' := Bucket(n, bkt.count + 1, bkt.expandMult);
  }

  function Without(c: seq<Node>, i: nat): seq<Node>
    requires i < |c|
  {
    c[..i] + c[i + 1..]
  }

  lemma WithoutAt(c: seq<Node>, i: nat, k: int)
    requires i < |c|
    ensures At(Without(c, i), k) == if k < i then At(c, k) else At(c, k + 1)
  {}

  lemma WithoutDistinct(c: seq<Node>, i: nat)
    requires i < |c| && Distinct(c)
    ensures |Without(c, i)| == |c| - 1 && Distinct(Without(c, i)) && c[i] !in Without(c, i)
  {}

  /** HASH_DEL_IN_BKT on the bucket whose chain holds n at place i. */
  method UnlinkChain(bkt: Bucket, n: Node, ghost c: seq<Node>, ghost i: nat) returns (bkt': Bucket)
    requires ChainOk(bkt, c) && i < |c| && c[i] == n
    modifies (if n.hhPrev == null then {} else {n.hhPrev})`hhNext
    modifies (if n.hhNext == null then {} else {n.hhNext})`hhPrev
    ensures ChainOk(bkt', Without(c, i)) && bkt'.expandMult == bkt.expandMult
  {
    WithoutDistinct(c, i);
    hide Without;
    var head := bkt.hhHead;
    if head == n {
      head := n.hhNext;
    }
    if n.hhPrev != null {
      n.hhPrev.hhNext := n.hhNext;
    }
    if n.hhNext != null {
      n.hhNext.hhPrev := n.hhPrev;
    }
    bkt' := Bucket(head, bkt.count - 1, bkt.expandMult);
    ghost var d := Without(c, i);
    WithoutAt(c, i, 0);
    forall k | 0 <= k < |d| ensures d[k].hhPrev == At(d, k - 1) && d[k].hhNext == At(d, k + 1) {
      WithoutAt(c, i, k - 1);
      WithoutAt(c, i, k);
      WithoutAt(c, i, k + 1);
      assert At(d, k) == d[k];
    }
  }

  // ---- All chains

  /** How many items stand behind the first k of their chains. */
  function Excess(chains: seq<seq<Node>>, k: nat): nat {
    if chains == [] then 0
    else Excess(chains[..|chains| - 1], k) + Over(|chains[|chains| - 1]|, k)
  }

  function Over(len: nat, k: nat): nat { if len > k then len - k else 0 }

  lemma {:induction false} ExcessUpdate(chains: seq<seq<Node>>, b: nat, c: seq<Node>, k: nat)
    requires b < |chains|
    ensures Excess(chains[b := c], k) == Excess(chains, k) - Over(|chains[b]|, k) + Over(|c|, k)
  {
    var n := |chains| - 1;
    if b == n {
      assert chains[b := c][..n] == chains[..n];
    } else {
      assert chains[b := c][..n] == chains[..n][b := c];
      ExcessUpdate(chains[..n], b, c, k);
    }
  }

  /** Chain b of n holds exactly the members whose hash value selects it. */
  ghost predicate Collects(c: seq<Node>, members: set<Node>, b: nat, n: nat)
    requires n > 0
    reads members`hashv
  {
    && (forall x | x in c :: x in members && BucketOf(x.hashv, n) == b)
    && (forall x | x in members :: BucketOf(x.hashv, n) == b ==> x in c)
  }

  ghost predicate BucketOk(bkt: Bucket, c: seq<Node>, members: set<Node>, b: nat, n: nat)
    requires n > 0
    reads members`hashv, members`hhPrev, members`hhNext
  {
    Collects(c, members, b, n) && ChainOk(bkt, c)
  }

  /** The buckets hold exactly the members, each in its place; the counts add up. */
  ghost predicate Filed(bs: seq<Bucket>, chains: seq<seq<Node>>, members: set<Node>)
    reads members`hhPrev, members`hhNext, members`hashv
  {
    && 0 < |bs| == |chains|
    && (forall b | 0 <= b < |chains| :: BucketOk(bs[b], chains[b], members, b, |chains|))
    && Excess(chains, 0) == |members|
  }

  lemma OtherChain(c: seq<Node>, d: seq<Node>, members: set<Node>, b: nat, b': nat, n: nat)
    requires n > 0 && b != b' && Collects(c, members, b, n) && Collects(d, members, b', n)
    ensures forall i | 0 <= i < |d| :: d[i] !in c && d[i] in members
  {
    hide BucketOf;
  }

  lemma CollectsPush(c: seq<Node>, members: set<Node>, b: nat, n: nat, e: Node)
    requires n > 0 && Collects(c, members, b, n)
    ensures Collects(if BucketOf(e.hashv, n) == b then [e] + c else c, members + {e}, b, n)
  {
    hide BucketOf;
  }

  function Pushed(chains: seq<seq<Node>>, b: nat, n: Node): seq<seq<Node>>
    requires b < |chains|
  {
    chains[b := [n] + chains[b]]
  }

  /** Putting a new item at the head of the chain its hash value selects. */
  method Push(bs: array<Bucket>, n: Node, ghost chains: seq<seq<Node>>, ghost members: set<Node>)
    returns (b: nat)
    requires Filed(bs[..], chains, members) && n !in members
    modifies bs, n`hhPrev, n`hhNext, members`hhPrev
    ensures b < |chains| == bs.Length && b == BucketOf(n.hashv, bs.Length)
    ensures Filed(bs[..], Pushed(chains, b, n), members + {n})
    ensures bs[..] == old(bs[..])[b := Bucket(n, old(bs[..])[b].count + 1, old(bs[..])[b].expandMult)]
  {
    hide *;
    ghost var was := bs[..];
    FiledShape(was, chains, members);
    b := BucketOf(n.hashv, bs.Length);
    Separate(was, chains, members, b);
    var bkt := PushChain(bs[b], n, chains[b]);
    bs[b] := bkt;
    assert bs[..] == was[b := bkt];
    PushedFiled(was, chains, members, b, n, bkt);
  }

  lemma FiledShape(bs: seq<Bucket>, chains: seq<seq<Node>>, members: set<Node>)
    requires Filed(bs, chains, members)
    ensures 0 < |bs| == |chains|
  {}

  /** The members in chains other than b. */
  ghost function Others(chains: seq<seq<Node>>, members: set<Node>, b: nat): set<Node>
    requires b < |chains|
  {
    set x | x in members && x !in chains[b]
  }

  ghost predicate OthersOk(bs: seq<Bucket>, chains: seq<seq<Node>>, b: nat, others: set<Node>)
    requires |bs| == |chains|
    reads others`hhPrev, others`hhNext
  {
    forall b' | 0 <= b' < |chains| && b' != b ::
      (forall x | x in chains[b'] :: x in others) && ChainOk(bs[b'], chains[b'])
  }

  ghost predicate AllCollect(chains: seq<seq<Node>>, members: set<Node>)
    requires |chains| > 0
    reads members`hashv
  {
    forall b | 0 <= b < |chains| :: Collects(chains[b], members, b, |chains|)
  }

  /** Splits the state into the bucket at hand and the rest, which shares no item with it. */
  lemma Separate(bs: seq<Bucket>, chains: seq<seq<Node>>, members: set<Node>, b: nat)
    requires Filed(bs, chains, members) && b < |chains|
    ensures ChainOk(bs[b], chains[b]) && OthersOk(bs, chains, b, Others(chains, members, b))
    ensures AllCollect(chains, members)
    ensures forall i | 0 <= i < |chains[b]| :: chains[b][i] in members && chains[b][i] !in Others(chains, members, b)
    ensures bs[b].hhHead != null ==> bs[b].hhHead in chains[b] && bs[b].hhHead in members
    ensures Excess(chains, 0) == |members| && Others(chains, members, b) <= members && Distinct(chains[b])
  {
    hide Collects, Excess, Chained, Distinct;
    var others := Others(chains, members, b);
    assert BucketOk(bs[b], chains[b], members, b, |chains|);
    CollectsWithin(chains[b], members, b, |chains|);
    forall b' | 0 <= b' < |chains| && b' != b
      ensures (forall x | x in chains[b'] :: x in others) && ChainOk(bs[b'], chains[b'])
    {
      assert BucketOk(bs[b'], chains[b'], members, b', |chains|);
      OtherChain(chains[b], chains[b'], members, b, b', |chains|);
    }
    forall b' | 0 <= b' < |chains| ensures Collects(chains[b'], members, b', |chains|) {
      assert BucketOk(bs[b'], chains[b'], members, b', |chains|);
    }
  }

  lemma PushedFiled(bs: seq<Bucket>, chains: seq<seq<Node>>, members: set<Node>, b: nat, n: Node, bkt: Bucket)
    requires 0 < |bs| == |chains| && n !in members && b == BucketOf(n.hashv, |chains|)
    requires OthersOk(bs, chains, b, Others(chains, members, b)) && AllCollect(chains, members)
    requires ChainOk(bkt, [n] + chains[b]) && Excess(chains, 0) == |members|
    ensures Filed(bs[b := bkt], Pushed(chains, b, n), members + {n})
  {
    ExcessUpdate(chains, b, [n] + chains[b], 0);
    hide Collects, ChainOk, Excess;
    forall b' | 0 <= b' < |chains|
      ensures BucketOk(bs[b := bkt][b'], Pushed(chains, b, n)[b'], members + {n}, b', |chains|)
    {
      CollectsPush(chains[b'], members, b', |chains|, n);
    }
  }

  lemma CollectsWithin(c: seq<Node>, members: set<Node>, b: nat, n: nat)
    requires n > 0 && Collects(c, members, b, n)
    ensures forall i | 0 <= i < |c| :: c[i] in members
  {}

  /** Taking an item out of the chain its hash value selects. */
  method Remove(bs: array<Bucket>, n: Node, ghost chains: seq<seq<Node>>, ghost members: set<Node>)
    returns (ghost b: nat, ghost i: nat)
    requires Filed(bs[..], chains, members) && n in members
    modifies bs, members`hhPrev, members`hhNext
    ensures b < |chains| == bs.Length && i < |chains[b]| && chains[b][i] == n
    ensures Filed(bs[..], chains[b := Without(chains[b], i)], members - {n})
    ensures forall k :: 0 <= k < bs.Length ==> bs[k].expandMult == old(bs[..])[k].expandMult
  {
    hide *;
    ghost var was := bs[..];
    FiledShape(was, chains, members);
    var k := BucketOf(n.hashv, bs.Length);
    b := k;
    Separate(was, chains, members, b);
    i := PlaceOf(n, chains, members);
    Neighbours(bs[k], chains, members, b, i);
    var bkt := UnlinkChain(bs[k], n, chains[b], i);
    bs[k] := bkt;
    assert bs[..] == was[k := bkt];
    RemovedFiled(was, chains, members, b, n, i, bkt);
  }

  lemma Neighbours(bkt: Bucket, chains: seq<seq<Node>>, members: set<Node>, b: nat, i: nat)
    requires b < |chains| && i < |chains[b]| && ChainOk(bkt, chains[b])
    requires forall i | 0 <= i < |chains[b]| :: chains[b][i] in members && chains[b][i] !in Others(chains, members, b)
    ensures var n, others := chains[b][i], Others(chains, members, b);
      && (n.hhPrev != null ==> n.hhPrev in members && n.hhPrev !in others)
      && (n.hhNext != null ==> n.hhNext in members && n.hhNext !in others)
  {}

  lemma PlaceOf(n: Node, chains: seq<seq<Node>>, members: set<Node>) returns (i: nat)
    requires |chains| > 0 && AllCollect(chains, members) && n in members
    ensures i < |chains[BucketOf(n.hashv, |chains|)]| && chains[BucketOf(n.hashv, |chains|)][i] == n
  {
    var b := BucketOf(n.hashv, |chains|);
    assert Collects(chains[b], members, b, |chains|);
    assert n in chains[b];
    i :| i < |chains[b]| && chains[b][i] == n;
  }

  lemma WithoutMembers(c: seq<Node>, i: nat)
    requires i < |c| && Distinct(c)
    ensures forall x :: x in Without(c, i) <==> x in c && x != c[i]
  {
    forall x | x in c && x != c[i] ensures x in Without(c, i) {
      var k :| 0 <= k < |c| && c[k] == x;
      assert Without(c, i)[if k < i then k else k - 1] == x;
    }
  }

  lemma CollectsRemove(c: seq<Node>, members: set<Node>, b: nat, n: nat, i: nat)
    requires n > 0 && Collects(c, members, b, n) && i < |c| && Distinct(c)
    ensures Collects(Without(c, i), members - {c[i]}, b, n)
  {
    WithoutMembers(c, i);
    hide BucketOf, Without, Distinct;
  }

  lemma CollectsOther(c: seq<Node>, members: set<Node>, b: nat, n: nat, e: Node)
    requires n > 0 && Collects(c, members, b, n) && BucketOf(e.hashv, n) != b
    ensures Collects(c, members - {e}, b, n)
  {
    hide BucketOf;
  }

  lemma RemovedFiled(bs: seq<Bucket>, chains: seq<seq<Node>>, members: set<Node>, b: nat, n: Node, i: nat, bkt: Bucket)
    requires 0 < |bs| == |chains| && n in members && b == BucketOf(n.hashv, |chains|)
    requires OthersOk(bs, chains, b, Others(chains, members, b)) && AllCollect(chains, members)
    requires i < |chains[b]| && chains[b][i] == n && Distinct(chains[b])
    requires ChainOk(bkt, Without(chains[b], i)) && Excess(chains, 0) == |members|
    ensures Filed(bs[b := bkt], chains[b := Without(chains[b], i)], members - {n})
  {
    ExcessUpdate(chains, b, Without(chains[b], i), 0);
    WithoutDistinct(chains[b], i);
    hide Collects, ChainOk, Excess, Without, Distinct;
    var chains' := chains[b := Without(chains[b], i)];
    forall b' | 0 <= b' < |chains|
      ensures BucketOk(bs[b := bkt][b'], chains'[b'], members - {n}, b', |chains|)
    {
      assert Collects(chains[b'], members, b', |chains|);
      if b' == b {
        CollectsRemove(chains[b], members, b, |chains|, i);
      } else {
        CollectsOther(chains[b'], members, b', |chains|, n);
      }
    }
  }

}
