/** The hash table of uthash.h: adding, finding, deleting and sorting items, against a
    finite map from keys to items. */
module UtHash {
  import opened Bytes
  import opened Bits
  import Arith
  import opened ListSort
  import opened UtHashList
  import opened UtHashBuckets
  import opened UtHashExpand
  import opened Sequences

  const HASH_INITIAL_NUM_BUCKETS := 32
  const HASH_INITIAL_NUM_BUCKETS_LOG2 := 5
  const HASH_BKT_CAPACITY_THRESH := 10

  predicate UniqueKeys(s: seq<Node>) { forall x, y | x in s && y in s :: x.key == y.key ==> x == y }

  predicate HasKey(s: seq<Node>, key: seq<Byte>) { exists x | x in s :: x.key == key }

  function Members(s: seq<Node>): set<Node> { set x | x in s }

  /** The finite map that a list of items with different keys stands for. */
  ghost function Contents(s: seq<Node>): map<seq<Byte>, Node>
    requires UniqueKeys(s)
  {
    map x | x in s :: x.key := x
  }

  lemma {:induction false} DistinctCount(s: seq<Node>)
    requires Distinct(s)
    ensures |Members(s)| == |s|
  {
    if s == [] {
      assert Members(s) == {};
    } else {
      var n := |s| - 1;
      DistinctCount(s[..n]);
      assert s == s[..n] + [s[n]];
      assert Members(s) == Members(s[..n]) + {s[n]};
    }
  }

  /** HASH_APPEND_LIST, or the first item of a new list. */
  method AppendList(n: Node, tail: Node?, ghost s: seq<Node>)
    requires Linked(s) && Distinct(s) && n !in s && tail == At(s, |s| - 1)
    modifies n`prev, n`next, (if tail == null then {} else {tail})`next
    ensures Linked(s + [n])
  {
    n.next := null;
    n.prev := tail;
    if tail != null {
      tail.next := n;
    }
    ghost var r := s + [n];
    forall i | 0 <= i < |r| ensures r[i].prev == At(r, i - 1) && r[i].next == At(r, i + 1) {
      if i < |s| { assert r[i] == s[i]; }
    }
  }

  /** All items but item i are linked, across the place of item i. */
  ghost predicate Bypassed(s: seq<Node>, i: nat)
    reads s`prev, s`next
  {
    && (forall j {:trigger s[j].prev} :: 0 <= j < |s| && j != i ==>
          s[j].prev == if j == i + 1 then At(s, i - 1) else At(s, j - 1))
    && (forall j {:trigger s[j].next} :: 0 <= j < |s| && j != i ==>
          s[j].next == if j == i - 1 then At(s, i + 1) else At(s, j + 1))
  }

  lemma BypassedLinked(s: seq<Node>, i: nat)
    requires i < |s| && Bypassed(s, i)
    ensures Linked(Without(s, i))
  {
    hide Without;
    var d := Without(s, i);
    Ends(s, i);
    forall k | 0 <= k < |d| ensures d[k].prev == At(d, k - 1) && d[k].next == At(d, k + 1) {
      WithoutAt(s, i, k - 1);
      WithoutAt(s, i, k);
      WithoutAt(s, i, k + 1);
      var j := if k < i then k else k + 1;
      assert d[k] == At(d, k) == At(s, j) == s[j];
    }
  }

  /** The neighbours of item i are linked to each other. */
  method Relink(n: Node, ghost s: seq<Node>, ghost i: nat)
    requires Linked(s) && Distinct(s) && i < |s| && n == s[i]
    modifies (if n.prev == null then {} else {n.prev})`next
    modifies (if n.next == null then {} else {n.next})`prev
    ensures Linked(Without(s, i))
  {
    hide Without, Distinct;
    Neighbour(s, i);
    OnlyOnce(s, i - 1);
    OnlyOnce(s, i + 1);
    if n.prev != null {
      n.prev.next := n.next;
    }
    if n.next != null {
      n.next.prev := n.prev;
    }
    BypassedLinked(s, i);
  }

  /** The list part of HASH_DELETE_HH, for a list with other items. */
  method UnlinkList(head: Node, tail: Node, n: Node, ghost s: seq<Node>, ghost i: nat)
    returns (head': Node, tail': Node)
    requires Linked(s) && Distinct(s) && i < |s| && n == s[i] && |s| > 1
    requires head == s[0] && tail == s[|s| - 1]
    modifies (if n.prev == null then {} else {n.prev})`next
    modifies (if n.next == null then {} else {n.next})`prev
    ensures Linked(Without(s, i)) && |Without(s, i)| == |s| - 1
    ensures head' == Without(s, i)[0] && tail' == Without(s, i)[|s| - 2]
  {
    hide *;
    Neighbour(s, i);
    Ends(s, i);
    head', tail' := head, tail;
    if n == tail {
      tail' := n.prev;
    }
    if n.prev == null {
      head' := n.next;
    }
    Relink(n, s, i);
  }

  lemma OnlyOnce(s: seq<Node>, j: int)
    requires Distinct(s)
    ensures forall k | 0 <= k < |s| && k != j :: s[k] != At(s, j)
  {}

  lemma Ends(s: seq<Node>, i: nat)
    requires i < |s|
    ensures |Without(s, i)| == |s| - 1
    ensures |s| > 1 ==> Without(s, i)[0] == if i == 0 then s[1] else s[0]
    ensures |s| > 1 ==> Without(s, i)[|s| - 2] == if i == |s| - 1 then s[|s| - 2] else s[|s| - 1]
  {}

  /** An item of a longer list has a neighbour, and only the last one equals the tail. */
  lemma Neighbour(s: seq<Node>, i: nat)
    requires Distinct(s) && i < |s| && Linked(s)
    ensures s[i] == s[|s| - 1] <==> i == |s| - 1
    ensures if i == 0 then s[i].prev == null else s[i].prev == s[i - 1]
    ensures if i == |s| - 1 then s[i].next == null else s[i].next == s[i + 1]
  {}

  /** HASH_FIND_IN_BKT: the first item of the chain with this hash value and key. */
  method FindInBkt(bkt: Bucket, key: seq<Byte>, hashv: nat, ghost c: seq<Node>) returns (out: Node?)
    requires ChainOk(bkt, c)
    ensures out != null ==> out in c && out.hashv == hashv && out.key == key
    ensures out == null ==> forall x | x in c :: !(x.hashv == hashv && x.key == key)
  {
    out := bkt.hhHead;
    ghost var k := 0;
    while out != null
      invariant 0 <= k <= |c| && out == At(c, k)
      invariant forall i | 0 <= i < k :: !(c[i].hashv == hashv && c[i].key == key)
      decreases |c| - k
    {
      if out.hashv == hashv && |out.key| == |key| {
        if out.key == key {
          break;
        }
      }
      assert c[k] == out;
      out := out.hhNext;
      k := k + 1;
    }
  }

  lemma ContentsOf(s: seq<Node>, key: seq<Byte>, x: Node)
    requires UniqueKeys(s) && x in s && x.key == key
    ensures key in Contents(s) && Contents(s)[key] == x
  {
    assert x.key in Contents(s);
  }

  lemma ContentsAdd(s: seq<Node>, n: Node)
    requires UniqueKeys(s) && !HasKey(s, n.key)
    ensures UniqueKeys(s + [n]) && n !in s && Contents(s + [n]) == Contents(s)[n.key := n]
  {
    var a, b := Contents(s + [n]), Contents(s)[n.key := n];
    forall k | k in a ensures k in b && a[k] == b[k] {
      var x := a[k];
      if x != n { ContentsOf(s, k, x); }
    }
    forall k | k in b ensures k in a {
      ContentsOf(s + [n], k, b[k]);
    }
  }

  lemma ContentsRemove(s: seq<Node>, i: nat)
    requires UniqueKeys(s) && Distinct(s) && i < |s|
    ensures UniqueKeys(Without(s, i)) && Contents(Without(s, i)) == Contents(s) - {s[i].key}
    ensures Members(Without(s, i)) == Members(s) - {s[i]}
  {
    hide Without, Distinct, Contents, UniqueKeys;
    WithoutMembers(s, i);
    ContentsLess(s, Without(s, i), s[i]);
  }

  lemma ContentsLess(s: seq<Node>, r: seq<Node>, n: Node)
    requires UniqueKeys(s) && n in s
    requires forall x :: x in r <==> x in s && x != n
    ensures UniqueKeys(r) && Contents(r) == Contents(s) - {n.key} && Members(r) == Members(s) - {n}
  {
    assert UniqueKeys(r);
    var a, b := Contents(r), Contents(s) - {n.key};
    forall k | k in a ensures k in b && a[k] == b[k] {
      ContentsOf(s, k, a[k]);
    }
    forall k | k in b ensures k in a {
      ContentsOf(r, k, b[k]);
    }
  }

  lemma ContentsPermuted(s: seq<Node>, r: seq<Node>)
    requires UniqueKeys(s) && multiset(s) == multiset(r)
    ensures UniqueKeys(r) && Contents(r) == Contents(s) && Members(r) == Members(s) && |r| == |s|
  {
    forall x ensures x in r <==> x in s {
      assert x in multiset(r) <==> x in multiset(s);
    }
    assert |multiset(s)| == |s| && |multiset(r)| == |r|;
    forall k | k in Contents(r) ensures k in Contents(s) && Contents(s)[k] == Contents(r)[k] {
      ContentsOf(s, k, Contents(r)[k]);
    }
    forall k | k in Contents(s) ensures k in Contents(r) {
      ContentsOf(r, k, Contents(s)[k]);
    }
  }

  ghost predicate Hashed(hash: seq<Byte> -> nat, s: seq<Node>)
    reads s`hashv
  {
    forall x | x in s :: x.hashv == hash(x.key)
  }

  lemma HashedWithout(hash: seq<Byte> -> nat, s: seq<Node>, i: nat)
    requires i < |s| && Hashed(hash, s)
    ensures Hashed(hash, Without(s, i))
  {}

  lemma HashedAdd(hash: seq<Byte> -> nat, s: seq<Node>, n: Node)
    requires Hashed(hash, s) && n.hashv == hash(n.key)
    ensures Hashed(hash, s + [n])
  {}

  lemma HashedPermuted(hash: seq<Byte> -> nat, s: seq<Node>, r: seq<Node>)
    requires Hashed(hash, s) && Members(r) == Members(s)
    ensures Hashed(hash, r)
  {
    forall x | x in r ensures x in s { assert x in Members(r); }
  }

  /** The table whose items are linked from head; without items there is no table. */
  class Hash {
    const hash: seq<Byte> -> nat
    var head: Node?
    var buckets: array<Bucket>
    var numBuckets: nat
    var log2NumBuckets: nat
    var numItems: nat
    var tail: Node?
    var idealChainMaxlen: nat
    var nonidealItems: nat
    var ineffExpands: nat
    var noexpand: bool
    ghost var list: seq<Node>
    ghost var chains: seq<seq<Node>>

    ghost predicate ListOk()
      reads `head, `list, list`prev, list`next, list`hashv
    {
      && head == At(list, 0) && Linked(list) && Distinct(list) && UniqueKeys(list)
      && Hashed(hash, list)
    }

    ghost predicate TableOk()
      reads `buckets, `numBuckets, `log2NumBuckets, `numItems, `tail, `chains, `list
      reads buckets, list`hhPrev, list`hhNext, list`hashv
    {
      && buckets.Length == numBuckets == Pow2(log2NumBuckets)
      && numItems == |list| && tail == At(list, |list| - 1)
      && |chains| == numBuckets && Filed(buckets[..], chains, Members(list))
    }

    /** HASH_FSCK, and where every item belongs. */
    ghost predicate Valid()
      reads this, buckets, list`prev, list`next, list`hhPrev, list`hhNext, list`hashv
    {
      ListOk() && (list != [] ==> TableOk())
    }

    constructor (hash: seq<Byte> -> nat)
      ensures Valid() && list == [] && this.hash == hash && fresh(buckets)
    {
      this.hash := hash;
      head, tail := null, null;
      buckets := new Bucket[0];
      numBuckets, log2NumBuckets, numItems := 0, 0, 0;
      idealChainMaxlen, nonidealItems, ineffExpands, noexpand := 0, 0, 0, false;
      list, chains := [], [];
    }

    /** HASH_FIND agrees with the finite map. */
    method Find(key: seq<Byte>) returns (out: Node?)
      requires Valid()
      ensures out == null <==> key !in Contents(list)
      ensures out != null ==> Contents(list)[key] == out
    {
      out := null;
      if head != null {
        var hashv := hash(key);
        var bkt := BucketOf(hashv, numBuckets);
        assert BucketOk(buckets[..][bkt], chains[bkt], Members(list), bkt, numBuckets);
        out := FindInBkt(buckets[bkt], key, hashv, chains[bkt]);
        if out == null {
          forall x | x in list ensures x.key != key {
            assert x in Members(list);
          }
        } else {
          ContentsOf(list, key, out);
        }
      }
    }

    /** HASH_MAKE_TABLE, up to the fields that Add sets. */
    method MakeTable()
      modifies this`buckets, `numBuckets, `log2NumBuckets, `numItems
      modifies `idealChainMaxlen, `nonidealItems, `ineffExpands, `noexpand, `chains
      ensures fresh(buckets) && buckets.Length == numBuckets == Pow2(log2NumBuckets) == |chains| && numItems == 0
      ensures Filed(buckets[..], chains, {}) && numBuckets == HASH_INITIAL_NUM_BUCKETS
      ensures forall b :: 0 <= b < numBuckets ==> chains[b] == [] && buckets[b] == Bucket(null, 0, 0)
      ensures idealChainMaxlen == nonidealItems == ineffExpands == 0 && !noexpand
    {
      hide Filed, Pow2;
      numBuckets, log2NumBuckets, numItems := HASH_INITIAL_NUM_BUCKETS, HASH_INITIAL_NUM_BUCKETS_LOG2, 0;
      idealChainMaxlen, nonidealItems, ineffExpands, noexpand := 0, 0, 0, false;
      buckets := new Bucket[numBuckets](_ => Bucket(null, 0, 0));
      chains := seq(numBuckets, _ => []);
      EmptyFiled(buckets[..]);
      assert Pow2(5) == 32 by { FivePowers(); }
    }

    /** The items in twice as many buckets. */
    method Double()
      requires TableOk()
      modifies this`buckets, `numBuckets, `log2NumBuckets, `chains
      modifies `idealChainMaxlen, `nonidealItems, list`hhPrev, list`hhNext
      ensures TableOk() && fresh(buckets) && numBuckets == 2 * old(numBuckets)
      ensures IsCeiling(idealChainMaxlen, numItems, numBuckets)
      ensures nonidealItems == Excess(chains, idealChainMaxlen) && Mults(buckets[..], chains, idealChainMaxlen)
    {
      hide Filed, Excess, IdealChain, IsCeiling, Pow2, Distinct, Mults;
      Doubled(log2NumBuckets);
      idealChainMaxlen := IdealChain(numItems, log2NumBuckets + 1, numBuckets * 2);
      var bs;
      bs, nonidealItems, chains := Redistribute(buckets, idealChainMaxlen, chains, Members(list));
      numBuckets := numBuckets * 2;
      log2NumBuckets := log2NumBuckets + 1;
      buckets := bs;
    }

    /** The bookkeeping behind an expansion, with the values from before it. */
    ghost predicate JustExpanded(ineff: nat, barred: bool)
      reads `idealChainMaxlen, `numItems, `numBuckets, `nonidealItems, `ineffExpands, `noexpand, `chains
      reads `buckets, buckets
    {
      && IsCeiling(idealChainMaxlen, numItems, numBuckets)
      && nonidealItems == Excess(chains, idealChainMaxlen)
      && Mults(buckets[..], chains, idealChainMaxlen)
      && ineffExpands == (if nonidealItems > numItems / 2 then ineff + 1 else 0)
      && (noexpand <==> barred || ineffExpands > 1)
    }

    /** HASH_EXPAND_BUCKETS: the ideal chain length is the ceiling of items per bucket,
        and two expansions in a row that leave most items beyond it are the last. */
    method Expand()
      requires TableOk()
      modifies this`buckets, `numBuckets, `log2NumBuckets, `chains
      modifies `idealChainMaxlen, `nonidealItems, `ineffExpands, `noexpand, list`hhPrev, list`hhNext
      ensures TableOk() && fresh(buckets) && numBuckets == 2 * old(numBuckets)
      ensures JustExpanded(old(ineffExpands), old(noexpand))
    {
      hide Filed, Excess, IsCeiling, Pow2, Distinct, Mults, TableOk;
      Double();
      ineffExpands := if nonidealItems > numItems / 2 then ineffExpands + 1 else 0;
      if ineffExpands > 1 {
        noexpand := true;
      }
    }

    /** HASH_ADD_TO_TABLE for the item n that was put behind the list s. */
    method AddToTable(n: Node, ghost s: seq<Node>)
      requires list == s + [n] && Distinct(list) && tail == n && numItems == |s|
      requires buckets.Length == numBuckets == Pow2(log2NumBuckets) == |chains|
      requires Filed(buckets[..], chains, Members(s))
      modifies this`buckets, `numBuckets, `log2NumBuckets, `chains, `numItems
      modifies `idealChainMaxlen, `nonidealItems, `ineffExpands, `noexpand, buckets, list`hhPrev, list`hhNext
      ensures TableOk() && (buckets == old(buckets) || fresh(buckets))
      ensures var b := BucketOf(n.hashv, old(numBuckets));
        if |old(chains)[b]| + 1 >= (old(buckets[..])[b].expandMult + 1) * 10 && !old(noexpand)
        then numBuckets == 2 * old(numBuckets) && JustExpanded(old(ineffExpands), old(noexpand))
        else
          && numBuckets == old(numBuckets) && chains == Pushed(old(chains), b, n)
          && (forall k :: 0 <= k < numBuckets ==> buckets[k].expandMult == old(buckets[..])[k].expandMult)
          && idealChainMaxlen == old(idealChainMaxlen) && nonidealItems == old(nonidealItems)
          && ineffExpands == old(ineffExpands) && noexpand == old(noexpand)
    {
      hide Filed, Distinct, JustExpanded;
      numItems := numItems + 1;
      NewMember(s, n);
      Counts(buckets[..], chains, Members(s));
      var b := Push(buckets, n, chains, Members(s));
      chains := Pushed(chains, b, n);
      if buckets[b].count >= (buckets[b].expandMult + 1) * HASH_BKT_CAPACITY_THRESH && !noexpand {
        Expand();
      }
    }

    /** The new item at the end of the list, in a new table if need be. */
    method Enlist(n: Node)
      requires Valid() && n !in list && !HasKey(list, n.key)
      modifies this`head, `tail, `list, `buckets, `numBuckets, `log2NumBuckets, `chains, `numItems
      modifies `idealChainMaxlen, `nonidealItems, `ineffExpands, `noexpand
      modifies n`prev, n`next, n`hashv, list`next
      ensures ListOk() && list == old(list) + [n] && tail == n && (buckets == old(buckets) || fresh(buckets))
      ensures numItems == |old(list)| && buckets.Length == numBuckets == Pow2(log2NumBuckets) == |chains|
      ensures Filed(buckets[..], chains, Members(old(list)))
      ensures old(list) == [] ==>
        && numBuckets == 32 && forall b :: 0 <= b < 32 ==> chains[b] == [] && buckets[b].expandMult == 0
      ensures old(list) != [] ==>
        && numBuckets == old(numBuckets) && chains == old(chains) && buckets[..] == old(buckets[..])
        && idealChainMaxlen == old(idealChainMaxlen) && nonidealItems == old(nonidealItems)
        && ineffExpands == old(ineffExpands) && noexpand == old(noexpand)
      ensures n.hashv == hash(n.key)
    {
      hide Filed, Distinct, UniqueKeys, Hashed, Linked, Contents, Pow2;
      ghost var s := list;
      ContentsAdd(s, n);
      DistinctAdd(s, n);
      n.hashv := hash(n.key);
      HashedAdd(hash, s, n);
      if head == null {
        AppendList(n, null, s);
        MakeTable();
        head, tail := n, n;
        assert Members(s) == {};
      } else {
        AppendList(n, tail, s);
        tail := n;
      }
      list := s + [n];
    }

    /** HASH_ADD_KEYPTR_BYHASHVALUE with the hash value of the key. The caller must not
        add a key twice. */
    method Add(n: Node)
      requires Valid() && !HasKey(list, n.key)
      modifies this`head, `tail, `list, `buckets, `numBuckets, `log2NumBuckets, `chains, `numItems
      modifies `idealChainMaxlen, `nonidealItems, `ineffExpands, `noexpand, buckets
      modifies n`prev, n`next, n`hhPrev, n`hhNext, n`hashv, list`next, list`hhPrev, list`hhNext
      ensures Valid() && list == old(list) + [n] && (buckets == old(buckets) || fresh(buckets))
      ensures Contents(list) == old(Contents(list))[n.key := n]
      ensures old(list) == [] ==> numBuckets == 32
      ensures old(list) != [] ==>
        var b := BucketOf(hash(n.key), old(numBuckets));
        if |old(chains)[b]| + 1 >= (old(buckets[..])[b].expandMult + 1) * 10 && !old(noexpand)
        then numBuckets == 2 * old(numBuckets) && JustExpanded(old(ineffExpands), old(noexpand))
        else
          && numBuckets == old(numBuckets)
          && (forall k :: 0 <= k < numBuckets ==> buckets[k].expandMult == old(buckets[..])[k].expandMult)
          && idealChainMaxlen == old(idealChainMaxlen) && nonidealItems == old(nonidealItems)
          && ineffExpands == old(ineffExpands) && noexpand == old(noexpand)
    {
      hide ListOk, TableOk, Filed, Distinct, UniqueKeys, Contents, Pow2, Members, HasKey, JustExpanded;
      ghost var s := list;
      UniqueInList();
      ContentsAdd(s, n);
      DistinctAdd(s, n);
      Enlist(n);
      AddToTable(n, s);
    }

    lemma UniqueInList()
      requires Valid()
      ensures UniqueKeys(list) && Distinct(list)
    {}

    /** HASH_DELETE_HH: the list without item i, which is n, and the map without its key. */
    method Delete(n: Node) returns (ghost i: nat)
      requires Valid() && n in list
      modifies this`head, `tail, `list, `chains, `numItems, buckets
      modifies list`prev, list`next, list`hhPrev, list`hhNext
      ensures Valid() && i < |old(list)| && old(list)[i] == n && list == Without(old(list), i)
      ensures Contents(list) == old(Contents(list)) - {n.key}
      ensures forall k :: 0 <= k < buckets.Length ==> buckets[k].expandMult == old(buckets[..])[k].expandMult
    {
      hide Filed, Distinct, UniqueKeys, Without, Linked, Hashed, Contents;
      ghost var s := list;
      i :| i < |s| && s[i] == n;
      Neighbour(s, i);
      Ends(s, i);
      ContentsRemove(s, i);
      WithoutDistinct(s, i);
      HashedWithout(hash, s, i);
      list := Without(s, i);
      if n.prev == null && n.next == null {
        head := null;
        LinkedNil(list);
      } else {
        Unlink(n, s, i);
      }
    }

    /** HASH_DELETE_HH for an item that is not the only one. */
    method Unlink(n: Node, ghost s: seq<Node>, ghost i: nat)
      requires Linked(s) && Distinct(s) && i < |s| && s[i] == n && |s| > 1 && head == s[0] && tail == s[|s| - 1]
      requires list == Without(s, i) && UniqueKeys(list) && Distinct(list) && Hashed(hash, list)
      requires Members(list) == Members(s) - {n} && |list| == |s| - 1
      requires numItems == |s| && buckets.Length == numBuckets == Pow2(log2NumBuckets) == |chains|
      requires Filed(buckets[..], chains, Members(s))
      modifies this`head, `tail, `chains, `numItems, buckets, s`prev, s`next, s`hhPrev, s`hhNext
      ensures Valid()
      ensures forall k :: 0 <= k < buckets.Length ==> buckets[k].expandMult == old(buckets[..])[k].expandMult
    {
      hide Filed, Distinct, UniqueKeys, Without, Linked, Hashed;
      Neighbour(s, i);
      head, tail := UnlinkList(head, tail, n, s, i);
      assert ListOk();
      RemoveFromTable(n, s);
      assert ListOk();
    }

    /** The bucket part of HASH_DELETE_HH. */
    method RemoveFromTable(n: Node, ghost s: seq<Node>)
      requires n in s && Members(list) == Members(s) - {n} && |list| == |s| - 1 && tail == At(list, |list| - 1)
      requires numItems == |s| && buckets.Length == numBuckets == Pow2(log2NumBuckets) == |chains|
      requires Filed(buckets[..], chains, Members(s))
      modifies this`chains, `numItems, buckets, s`hhPrev, s`hhNext
      ensures TableOk()
      ensures forall k :: 0 <= k < buckets.Length ==> buckets[k].expandMult == old(buckets[..])[k].expandMult
    {
      hide Filed, Without;
      ghost var b, j := Remove(buckets, n, chains, Members(s));
      chains := chains[b := Without(chains[b], j)];
      numItems := numItems - 1;
    }

    /** HASH_SRT: the same items, sorted stably if the comparison is a preorder. */
    method Sort(cmp: (Node, Node) -> int)
      requires Valid()
      modifies this`head, `tail, `list, list`prev, list`next
      ensures Valid() && list == ListSort.Sort(cmp, old(list), 1)
      ensures Contents(list) == old(Contents(list))
      ensures IsPreorder(cmp, old(list)) ==> Sorted(cmp, list)
      ensures IsPreorder(cmp, old(list)) ==> forall x | x in list :: Equals(cmp, list, x) == Equals(cmp, old(list), x)
    {
      hide Filed, Distinct, UniqueKeys, Linked, Hashed, IsPreorder, Sorted, Equals, ListSort.Sort, Contents;
      ghost var s := list;
      SortElements(cmp, s, 1);
      SortStably(cmp, s);
      ContentsPermuted(s, ListSort.Sort(cmp, s, 1));
      if head != null {
        head, tail := SortList(cmp, s, head);
      }
      list := ListSort.Sort(cmp, s, 1);
      HashedPermuted(hash, s, list);
    }
  }

  lemma SortStably(cmp: (Node, Node) -> int, s: seq<Node>)
    ensures var r := ListSort.Sort(cmp, s, 1);
      IsPreorder(cmp, s) ==> Sorted(cmp, r) && forall x | x in r :: Equals(cmp, r, x) == Equals(cmp, s, x)
  {
    if IsPreorder(cmp, s) {
      StableSort(cmp, s);
      var r := ListSort.Sort(cmp, s, 1);
      forall x | x in r ensures Equals(cmp, r, x) == Equals(cmp, s, x) {
        assert x in multiset(r);
      }
    }
  }

  lemma LinkedNil(s: seq<Node>)
    requires s == []
    ensures Linked(s)
  {}

  lemma EmptyFiled(bs: seq<Bucket>)
    requires bs == seq(|bs|, _ => Bucket(null, 0, 0)) && |bs| > 0
    ensures Filed(bs, seq(|bs|, _ => []), {})
  {
    hide BucketOf;
    var chains: seq<seq<Node>> := seq(|bs|, _ => []);
    EmptyExcess(|bs|, 0);
    forall b | 0 <= b < |chains| ensures BucketOk(bs[b], chains[b], {}, b, |chains|) {
      assert bs[b] == Bucket(null, 0, 0) && chains[b] == [];
    }
  }

  /** c is m / n rounded up. */
  predicate IsCeiling(c: int, m: int, n: int) { c * n >= m > (c - 1) * n }

  lemma FivePowers()
    ensures Pow2(5) == 32
  {}

  lemma Doubled(k: nat)
    ensures Pow2(k + 1) == 2 * Pow2(k)
  {}

  lemma Ceiling(m: nat, n: nat)
    requires n > 0
    ensures m / n >= 0 && IsCeiling(m / n + if m % n != 0 then 1 else 0, m, n)
  {
    var q, r := m / n, m % n;
    Arith.Quotient(m, n);
    assert m == q * n + r;
    assert (q + 1) * n == q * n + n && (q - 1) * n == q * n - n;
  }

  /** The number of items per bucket, rounded up, with a shift and a mask. */
  function IdealChain(items: nat, log2: nat, numBuckets: nat): (ideal: nat)
    requires numBuckets == Pow2(log2)
    ensures IsCeiling(ideal, items, numBuckets)
  {
    MaskIsRemainder(items, log2);
    Ceiling(items, numBuckets);
    items / Pow2(log2) + if And(items, numBuckets - 1) != 0 then 1 else 0
  }

  lemma NewMember(s: seq<Node>, n: Node)
    requires Distinct(s + [n])
    ensures n !in Members(s) && Members(s + [n]) == Members(s) + {n} && |s + [n]| == |s| + 1
    ensures At(s + [n], |s|) == n
  {
    assert forall k | 0 <= k < |s| :: (s + [n])[k] == s[k] && (s + [n])[|s|] == n;
  }

  lemma DistinctAdd(s: seq<Node>, n: Node)
    requires Distinct(s) && n !in s
    ensures Distinct(s + [n])
  {}

}
