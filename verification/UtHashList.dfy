/** The application-order list of uthash.h: nodes linked in both directions, and
    HASH_SRT, which sorts them in place by relinking. */
module UtHashList {
  import opened Arith
  import opened Sequences
  import opened ListSort
  import opened Bytes

  /** UT_hash_handle, with the element it is embedded in. The key belongs to the
      element and is not changed while it is in a table. */
  class Node {
    const key: seq<Byte>
    var prev: Node?
    var next: Node?
    var hhPrev: Node?
    var hhNext: Node?
    var hashv: nat

    constructor (key: seq<Byte>)
      ensures this.key == key
    {
      this.key := key;
      prev, next, hhPrev, hhNext, hashv := null, null, null, null, 0;
    }
  }

  predicate Within(a: seq<Node>, b: seq<Node>) { forall x | x in a :: x in b }

  function At(s: seq<Node>, i: int): Node? { if 0 <= i < |s| then s[i] else null }

  /** The list s, from its first node to its last. */
  ghost predicate Linked(s: seq<Node>)
    reads s`prev, s`next
  {
    && (forall i {:trigger s[i].prev} :: 0 <= i < |s| ==> s[i].prev == At(s, i - 1))
    && (forall i {:trigger s[i].next} :: 0 <= i < |s| ==> s[i].next == At(s, i + 1))
  }

  /** The list s while it is being built: the next field of its last node is not yet set. */
  ghost predicate Built(s: seq<Node>, first: Node?, last: Node?)
    reads s`prev, s`next
  {
    && first == At(s, 0) && last == At(s, |s| - 1)
    && (forall i {:trigger s[i].prev} :: 0 <= i < |s| ==> s[i].prev == At(s, i - 1))
    && (forall i {:trigger s[i].next} :: 0 <= i < |s| - 1 ==> s[i].next == s[i + 1])
  }

  /** Put e behind the list built so far. */
  method Link(e: Node, list: Node?, tail: Node?, ghost done: seq<Node>) returns (list': Node?, tail': Node?)
    requires Built(done, list, tail) && Distinct(done) && e !in done
    modifies e`prev, (if tail == null then {} else {tail})`next
    ensures Built(done + [e], list', tail') && Distinct(done + [e]) && tail' == e
  {
    list' := list;
    if tail != null {
      tail.next := e;
    } else {
      list' := e;
    }
    e.prev := tail;
    tail' := e;
  }

  /** Node k of s has not been passed over: p's run is s[i..mid], q's starts at j. */
  predicate Waiting(k: int, i: int, mid: int, j: int, len: int) { i <= k < mid || j <= k < len }

  /** The waiting nodes still point to their old successors, and none is in the new list. */
  ghost predicate Untouched(s: seq<Node>, done: seq<Node>, i: int, mid: int, j: int)
    reads s`next
  {
    forall k :: 0 <= k < |s| && Waiting(k, i, mid, j, |s|) ==> s[k].next == At(s, k + 1) && s[k] !in done
  }

  /** Taking a waiting node: the others still wait. */
  method Take(ghost s: seq<Node>, ghost i0: int, ghost mid: int, ghost j0: int, ghost i: int, ghost j: int,
              e: Node, list: Node?, tail: Node?, ghost done: seq<Node>)
    returns (list': Node?, tail': Node?)
    requires 0 <= i0 <= i <= mid <= j0 <= j <= |s| && Distinct(s) && Untouched(s, done, i0, mid, j0)
    requires if i > i0 then i == i0 + 1 && j == j0 && e == s[i0] else i == i0 && j == j0 + 1 && e == s[j0]
    requires Built(done, list, tail) && Distinct(done) && e !in done && Within(done, s)
    modifies s`prev, s`next
    ensures Built(done + [e], list', tail') && Distinct(done + [e]) && tail' == e
    ensures Untouched(s, done + [e], i, mid, j) && Within(done + [e], s)
  {
    LastIsIn(done, list, tail);
    list', tail' := Link(e, list, tail, done);
    forall k | 0 <= k < |s| && Waiting(k, i, mid, j, |s|)
      ensures s[k].next == At(s, k + 1) && s[k] !in done + [e]
    {
      assert Waiting(k, i0, mid, j0, |s|);
    }
  }

  /** Where the two runs stand: p's waits from s[i] to s[mid], q's from s[j] to s[b]. */
  predicate RunsAt(s: seq<Node>, i: nat, mid: nat, j: nat, b: nat, p: Node?, psize: nat, q: Node?, qsize: nat) {
    && i <= mid <= j <= b <= |s|
    && psize == mid - i && (i < mid ==> p == s[i])
    && qsize >= b - j && (qsize > b - j ==> b == |s|) && q == At(s, j)
  }

  /** What is still to come of the merge. */
  function Pending(cmp: (Node, Node) -> int, s: seq<Node>, i: nat, mid: nat, j: nat, b: nat): seq<Node>
    requires i <= mid <= j <= b <= |s|
  {
    Merge(cmp, s[i..mid], s[j..b])
  }

  /** The next node of the merge, taken from the run it belongs to. */
  method Choose(cmp: (Node, Node) -> int, ghost s: seq<Node>, ghost done: seq<Node>,
                ghost i: nat, ghost mid: nat, ghost j: nat, ghost b: nat,
                p: Node?, psize: nat, q: Node?, qsize: nat)
    returns (e: Node, p': Node?, psize': nat, q': Node?, qsize': nat, ghost i': nat, ghost j': nat)
    requires RunsAt(s, i, mid, j, b, p, psize, q, qsize) && Untouched(s, done, i, mid, j)
    requires psize != 0 || (qsize != 0 && q != null)
    ensures RunsAt(s, i', mid, j', b, p', psize', q', qsize') && psize' + qsize' < psize + qsize
    ensures if i' > i then i' == i + 1 && j' == j && e == s[i] else i' == i && j' == j + 1 && e == s[j]
    ensures e !in done && i <= i' && j <= j'
    ensures Pending(cmp, s, i, mid, j, b) == [e] + Pending(cmp, s, i', mid, j', b)
  {
    hide Untouched, Pending;
    p', psize', q', qsize', i', j' := p, psize, q, qsize, i, j;
    if psize == 0 {
      FromRight(cmp, s, done, i, mid, j, b);
      e, q', qsize', j' := q, q.next, qsize - 1, j + 1;
    } else if qsize == 0 || q == null {
      FromLeft(cmp, s, done, i, mid, j, b);
      e, p', psize', i' := p, p.next, psize - 1, i + 1;
    } else if cmp(p, q) <= 0 {
      FromLeft(cmp, s, done, i, mid, j, b);
      e, p', psize', i' := p, p.next, psize - 1, i + 1;
    } else {
      FromRight(cmp, s, done, i, mid, j, b);
      e, q', qsize', j' := q, q.next, qsize - 1, j + 1;
    }
  }

  lemma FromLeft(cmp: (Node, Node) -> int, s: seq<Node>, done: seq<Node>, i: nat, mid: nat, j: nat, b: nat)
    requires i < mid <= j <= b <= |s| && Untouched(s, done, i, mid, j)
    requires j < b ==> cmp(s[i], s[j]) <= 0
    ensures s[i].next == At(s, i + 1) && s[i] !in done
    ensures Pending(cmp, s, i, mid, j, b) == [s[i]] + Pending(cmp, s, i + 1, mid, j, b)
  {
    hide Merge;
    MergeLeft(cmp, s, i, mid, j, b);
  }

  lemma FromRight(cmp: (Node, Node) -> int, s: seq<Node>, done: seq<Node>, i: nat, mid: nat, j: nat, b: nat)
    requires i <= mid <= j < b <= |s| && Untouched(s, done, i, mid, j)
    requires i < mid ==> cmp(s[i], s[j]) > 0
    ensures s[j].next == At(s, j + 1) && s[j] !in done
    ensures Pending(cmp, s, i, mid, j, b) == [s[j]] + Pending(cmp, s, i, mid, j + 1, b)
  {
    hide Merge;
    MergeRight(cmp, s, i, mid, j, b);
  }

  /** The state of one merge, which appends target to nothing: done is what is linked so far. */
  ghost predicate Merging(cmp: (Node, Node) -> int, s: seq<Node>, i: nat, mid: nat, j: nat, b: nat,
                          p: Node?, psize: nat, q: Node?, qsize: nat,
                          list: Node?, tail: Node?, done: seq<Node>, target: seq<Node>)
    reads s`prev, s`next, done`prev, done`next
  {
    && Distinct(s) && RunsAt(s, i, mid, j, b, p, psize, q, qsize)
    && Built(done, list, tail) && Distinct(done) && Within(done, s)
    && Untouched(s, done, i, mid, j)
    && done + Pending(cmp, s, i, mid, j, b) == target
  }

  /** One round of the merge loop. */
  method MergeStep(cmp: (Node, Node) -> int, ghost s: seq<Node>,
                   ghost i0: nat, ghost mid: nat, ghost j0: nat, ghost b: nat,
                   p0: Node?, psize0: nat, q0: Node?, qsize0: nat,
                   list0: Node?, tail0: Node?, ghost done0: seq<Node>, ghost target: seq<Node>)
    returns (p: Node?, psize: nat, q: Node?, qsize: nat, list: Node?, tail: Node?,
             ghost i: nat, ghost j: nat, ghost done: seq<Node>)
    requires Merging(cmp, s, i0, mid, j0, b, p0, psize0, q0, qsize0, list0, tail0, done0, target)
    requires psize0 != 0 || (qsize0 != 0 && q0 != null)
    modifies s`prev, s`next
    ensures Merging(cmp, s, i, mid, j, b, p, psize, q, qsize, list, tail, done, target)
    ensures psize + qsize < psize0 + qsize0 && tail != null
  {
    var e: Node;
    e, p, psize, q, qsize, i, j := Choose(cmp, s, done0, i0, mid, j0, b, p0, psize0, q0, qsize0);
    hide Built, Distinct, Untouched, Pending, Within;
    list, tail := Take(s, i0, mid, j0, i, j, e, list0, tail0, done0);
    Associate(done0, [e], Pending(cmp, s, i, mid, j, b));
    done := done0 + [e];
  }

  /** Merge the run of psize nodes at p with up to n nodes at q,
      appending to the list built so far. */
  method MergeRuns(cmp: (Node, Node) -> int, ghost s: seq<Node>, ghost a: nat, n: nat, ghost mid: nat, ghost b: nat,
                   start: Node, size: nat, second: Node?, first: Node?, last: Node?,
                   ghost built: seq<Node>, ghost target: seq<Node>)
    returns (list: Node?, tail: Node?, rest: Node?, ghost done: seq<Node>)
    requires size > 0 && Merging(cmp, s, a, mid, mid, b, start, size, second, n, first, last, built, target)
    modifies s`prev, s`next
    ensures done == target && Untouched(s, done, b, b, b) && rest == At(s, b)
    ensures Built(done, list, tail) && Distinct(done) && Within(done, s) && tail != null
  {
    hide *;
    ghost var i: nat, j: nat := a, mid;
    var p: Node?, q, psize, qsize := start, second, size, n;
    list, tail, done := first, last, built;
    while psize != 0 || (qsize != 0 && q != null)
      invariant Merging(cmp, s, i, mid, j, b, p, psize, q, qsize, list, tail, done, target)
      invariant psize == size || tail != null
      decreases psize + qsize
    {
      p, psize, q, qsize, list, tail, i, j, done :=
        MergeStep(cmp, s, i, mid, j, b, p, psize, q, qsize, list, tail, done, target);
    }
    Merged(cmp, s, i, mid, j, b, p, psize, q, qsize, list, tail, done, target);
    rest := q;
  }

  lemma Merged(cmp: (Node, Node) -> int, s: seq<Node>, i: nat, mid: nat, j: nat, b: nat,
               p: Node?, psize: nat, q: Node?, qsize: nat,
               list: Node?, tail: Node?, done: seq<Node>, target: seq<Node>)
    requires Merging(cmp, s, i, mid, j, b, p, psize, q, qsize, list, tail, done, target)
    requires psize == 0 && (qsize == 0 || q == null)
    ensures done == target && Untouched(s, done, b, b, b) && q == At(s, b)
    ensures Built(done, list, tail) && Distinct(done) && Within(done, s)
  {
    hide Built, Distinct, Untouched, Pending, Within;
    NothingLeft(cmp, s, i, j);
    NoneWaiting(s, done, i, j);
  }

  lemma MergeLeft(cmp: (Node, Node) -> int, s: seq<Node>, i: nat, mid: nat, j: nat, b: nat)
    requires i < mid <= j <= b <= |s| && (j < b ==> cmp(s[i], s[j]) <= 0)
    ensures Merge(cmp, s[i..mid], s[j..b]) == [s[i]] + Merge(cmp, s[i + 1..mid], s[j..b])
  {
    assert s[i..mid][1..] == s[i + 1..mid];
    if j == b { assert s[i..mid] == [s[i]] + s[i + 1..mid]; }
  }

  lemma MergeRight(cmp: (Node, Node) -> int, s: seq<Node>, i: nat, mid: nat, j: nat, b: nat)
    requires i <= mid <= j < b <= |s| && (i < mid ==> cmp(s[i], s[j]) > 0)
    ensures Merge(cmp, s[i..mid], s[j..b]) == [s[j]] + Merge(cmp, s[i..mid], s[j + 1..b])
  {
    assert s[j..b][1..] == s[j + 1..b];
    if i == mid { assert s[j..b] == [s[j]] + s[j + 1..b]; }
  }

  lemma NoneWaiting(s: seq<Node>, done: seq<Node>, i: int, j: int)
    requires Untouched(s, done, i, i, j) && i <= j
    ensures Untouched(s, done, j, j, j)
  {
    assert forall k :: Waiting(k, j, j, j, |s|) ==> Waiting(k, i, i, j, |s|);
  }

  lemma NothingLeft(cmp: (Node, Node) -> int, s: seq<Node>, i: nat, j: nat)
    requires i <= j <= |s|
    ensures Pending(cmp, s, i, i, j, j) == []
  {
    assert s[i..i] == [] && s[j..j] == [];
  }

  lemma LastIsIn(done: seq<Node>, list: Node?, tail: Node?)
    requires Built(done, list, tail)
    ensures if done == [] then tail == null else tail != null && tail in done
  {}

  // ---- One pass over the list

  /** Step over p's run to the node behind it. */
  method StepOver(ghost s: seq<Node>, ghost done: seq<Node>, ghost a: nat, p: Node, n: nat)
    returns (q: Node?, psize: nat)
    requires a < |s| && p == s[a] && n >= 1 && Untouched(s, done, a, a, a)
    ensures psize == Min(n, |s| - a) && q == At(s, a + psize)
  {
    q, psize := p, 0;
    var i := 0;
    while i < n
      invariant psize == i <= n && a + i < |s| && q == s[a + i]
    {
      assert Waiting(a + i, a, a, a, |s|);
      psize := psize + 1;
      q := q.next;
      if q == null { break; }
      i := i + 1;
    }
  }

  /** The state between two merges of a pass over s. */
  ghost predicate Passing(cmp: (Node, Node) -> int, s: seq<Node>, n: nat, a: nat, p: Node?,
                          list: Node?, tail: Node?, done: seq<Node>, nmerges: nat)
    reads s`prev, s`next, done`prev, done`next
  {
    && a <= |s| && n >= 1 && Distinct(s) && p == At(s, a)
    && Built(done, list, tail) && Distinct(done) && Within(done, s)
    && Untouched(s, done, a, a, a)
    && done + Pass(cmp, s[a..], n) == Pass(cmp, s, n)
    && (nmerges == 0 ==> a == 0) && (nmerges == 1 ==> a == Min(2 * n, |s|)) && (nmerges > 1 ==> a > 2 * n)
  }

  /** The body of the pass: one merge. */
  method PassStep(cmp: (Node, Node) -> int, ghost s: seq<Node>, n: nat, ghost a0: nat, p0: Node,
                  list0: Node?, tail0: Node?, ghost done0: seq<Node>, nmerges0: nat)
    returns (p: Node?, list: Node?, tail: Node?, nmerges: nat, ghost a: nat, ghost done: seq<Node>)
    requires Passing(cmp, s, n, a0, p0, list0, tail0, done0, nmerges0)
    modifies s`prev, s`next
    ensures Passing(cmp, s, n, a, p, list, tail, done, nmerges) && a > a0 && tail != null && nmerges > 0
  {
    hide Built, Distinct, Untouched, Within, Pass, Pending;
    nmerges := nmerges0 + 1;
    var q, psize := StepOver(s, done0, a0, p0, n);
    ghost var mid := a0 + psize;
    ghost var b := mid + Min(n, |s| - mid);
    PassUnfolded(cmp, s, n, a0, mid, b);
    Associate(done0, Pending(cmp, s, a0, mid, mid, b), Pass(cmp, s[b..], n));
    NoneTaken(s, done0, a0, mid);
    list, tail, p, done := MergeRuns(cmp, s, a0, n, mid, b, p0, psize, q, list0, tail0, done0,
                                     done0 + Pending(cmp, s, a0, mid, mid, b));
    a := b;
  }

  lemma NoneTaken(s: seq<Node>, done: seq<Node>, a: int, mid: int)
    requires Untouched(s, done, a, a, a) && a <= mid <= |s|
    ensures Untouched(s, done, a, mid, mid)
  {
    assert forall k :: Waiting(k, a, mid, mid, |s|) ==> Waiting(k, a, a, a, |s|);
  }

  lemma PassUnfolded(cmp: (Node, Node) -> int, s: seq<Node>, n: nat, a: nat, mid: nat, b: nat)
    requires n >= 1 && a < |s| && mid == a + Min(n, |s| - a) && b == mid + Min(n, |s| - mid)
    ensures b == a + Min(2 * n, |s| - a)
    ensures Pass(cmp, s[a..], n) == Pending(cmp, s, a, mid, mid, b) + Pass(cmp, s[b..], n)
  {
    var t := s[a..];
    assert FirstRun(t, n) == s[a..mid];
    assert SecondRun(t, n) == s[mid..b];
    assert BehindTwo(t, n) == s[b..];
  }

  /** One pass with runs of n nodes. */
  method MergePass(cmp: (Node, Node) -> int, ghost s: seq<Node>, n: nat, first: Node)
    returns (list: Node, tail: Node, nmerges: nat)
    requires Linked(s) && Distinct(s) && s != [] && first == s[0] && n >= 1
    modifies s`prev, s`next
    ensures var r := Pass(cmp, s, n);
      Linked(r) && Distinct(r) && Within(r, s) && list == r[0] && tail == r[|r| - 1]
    ensures nmerges <= 1 <==> |s| <= 2 * n
  {
    hide *;
    PassBegins(cmp, s, n, first);
    var p: Node?, l: Node?, t: Node? := first, null, null;
    ghost var a: nat, done := 0, [];
    nmerges := 0;
    while p != null
      invariant Passing(cmp, s, n, a, p, l, t, done, nmerges) && a <= |s|
      invariant nmerges == 0 ==> p != null
      invariant nmerges != 0 ==> t != null && t in s
      decreases |s| - a
    {
      p, l, t, nmerges, a, done := PassStep(cmp, s, n, a, p, l, t, done, nmerges);
      PassBound(cmp, s, n, a, p, l, t, done, nmerges);
    }
    list, tail := Close(cmp, s, n, a, l, t, done, nmerges);
  }

  lemma PassBegins(cmp: (Node, Node) -> int, s: seq<Node>, n: nat, first: Node)
    requires Linked(s) && Distinct(s) && s != [] && first == s[0] && n >= 1
    ensures Passing(cmp, s, n, 0, first, null, null, [], 0)
  {
    assert s[0..] == s;
  }

  lemma PassBound(cmp: (Node, Node) -> int, s: seq<Node>, n: nat, a: nat, p: Node?, list: Node?, tail: Node?,
                  done: seq<Node>, nmerges: nat)
    requires Passing(cmp, s, n, a, p, list, tail, done, nmerges)
    ensures a <= |s| && (tail != null ==> tail in s)
  {
    LastIsIn(done, list, tail);
  }

  /** The end of the pass: the last node gets no successor. */
  method Close(cmp: (Node, Node) -> int, ghost s: seq<Node>, n: nat, ghost a: nat, l: Node?, t: Node,
               ghost done: seq<Node>, nmerges: nat)
    returns (list: Node, tail: Node)
    requires Passing(cmp, s, n, a, null, l, t, done, nmerges) && nmerges > 0
    modifies t`next
    ensures done == Pass(cmp, s, n) && Linked(done) && Distinct(done) && Within(done, s) && done != []
    ensures list == done[0] && tail == done[|done| - 1]
    ensures nmerges <= 1 <==> |s| <= 2 * n
  {
    hide Pass, Untouched;
    assert a == |s|;
    PassNil(cmp, n);
    assert s[a..] == [];
    t.next := null;
    list, tail := l, t;
  }

  lemma PassNil(cmp: (Node, Node) -> int, n: nat)
    requires n >= 1
    ensures Pass(cmp, [], n) == []
  {}

  /** HASH_SRT on a non-empty list: passes with doubled runs until one merge is enough. */
  method SortList(cmp: (Node, Node) -> int, ghost s: seq<Node>, first: Node) returns (head: Node, tail: Node)
    requires Linked(s) && Distinct(s) && s != [] && first == s[0]
    modifies s`prev, s`next
    ensures var r := Sort(cmp, s, 1);
      Linked(r) && Distinct(r) && Within(r, s) && head == r[0] && tail == r[|r| - 1]
  {
    hide Linked, Distinct, Pass;
    var insize, looping := 1, true;
    var list := first;
    head, tail := first, first;
    ghost var r := s;
    WithinItself(s);
    while looping
      invariant insize >= 1 && Linked(r) && Distinct(r) && Within(r, s) && |r| == |s| && list == r[0]
      invariant looping ==> Sort(cmp, r, insize) == Sort(cmp, s, 1)
      invariant !looping ==> r == Sort(cmp, s, 1) && head == list && tail == r[|r| - 1]
      decreases looping, |s| - insize
    {
      var nmerges;
      WithinFrame(r, s);
      list, tail, nmerges := MergePass(cmp, r, insize, list);
      r := Pass(cmp, r, insize);
      if nmerges <= 1 {
        looping := false;
        head := list;
      }
      insize := insize * 2;
    }
  }

  lemma WithinItself(s: seq<Node>)
    ensures Within(s, s)
  {}

  lemma WithinFrame(r: seq<Node>, s: seq<Node>)
    requires Within(r, s)
    ensures forall i :: 0 <= i < |r| ==> r[i] in s
  {}

}
