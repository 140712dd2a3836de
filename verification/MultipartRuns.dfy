/** Several messages from one sender, some of their pieces lost: what the reassembly of
    MultipartPacket.cs hands on, and exactly when that is nothing but whole messages. */
module MultipartRuns {
  import opened Arith
  import opened Bytes
  import opened Sequences
  import opened Multipart

  /** A message, and which of its pieces arrive. */
  datatype Sending = Sending(envelope: Envelope, payload: seq<Byte>, arrived: seq<nat>) {
    predicate Valid() {
      && 1 <= NumParts(|payload|) <= 256 && PiecesOf(arrived, payload)
      && forall i, j :: 0 <= i < j < |arrived| ==> arrived[i] < arrived[j]
    }

    predicate Complete() { forall i :: 0 <= i < NumParts(|payload|) ==> i in arrived }
  }

  predicate ValidRun(run: seq<Sending>) { forall i :: 0 <= i < |run| ==> run[i].Valid() }

  /** The receiver, piece after piece. */
  function RunState(run: seq<Sending>): Pending
    requires ValidRun(run)
  {
    if run == [] then FRESH
    else
      var m := run[|run| - 1];
      After(RunState(run[..|run| - 1]), m.envelope, m.payload, m.arrived)
  }

  function RunHandedOn(run: seq<Sending>): seq<seq<Byte>>
    requires ValidRun(run)
  {
    if run == [] then []
    else
      var n := |run| - 1;
      var m := run[n];
      RunHandedOn(run[..n]) + HandedOn(RunState(run[..n]), m.envelope, m.payload, m.arrived)
  }

  // ---- The same, message by message

  /** The first k pieces of n, with these bytes. */
  datatype Owed = Owed(front: seq<Byte>, k: nat, n: nat)

  const NOTHING := Owed([], 0, 0)

  predicate Sound(o: Owed) { if o.k == 0 then o.front == [] else o.k < o.n <= 256 }

  /** How many pieces make the packet complete. */
  function Need(o: Owed, m: Sending): nat { if o.k == 0 then NumParts(|m.payload|) else o.n }

  /** The first number from k on that is not among js. */
  function Gap(js: seq<nat>, k: nat): (g: nat)
    requires forall i :: 0 <= i < |js| ==> js[i] < 256
    ensures k <= g && g !in js && forall i :: k <= i < g ==> i in js
    decreases if k < 256 then 256 - k else 0
  {
    if k in js then Gap(js, k + 1) else k
  }

  /** The bytes of the pieces from i up to j. */
  function Pieces(payload: seq<Byte>, i: nat, j: nat): seq<Byte>
    requires i <= j
  {
    payload[Min(MAX_PAYLOAD_BYTES * i, |payload|)..Min(MAX_PAYLOAD_BYTES * j, |payload|)]
  }

  predicate Completes(o: Owed, m: Sending)
    requires m.Valid()
  {
    Gap(m.arrived, o.k) >= Need(o, m)
  }

  function Joined(o: Owed, m: Sending): seq<Byte>
    requires Sound(o)
  {
    o.front + Pieces(m.payload, o.k, Need(o, m))
  }

  function Next(o: Owed, m: Sending): (r: Owed)
    requires m.Valid() && Sound(o)
    ensures Sound(r)
  {
    var g := Gap(m.arrived, o.k);
    if Completes(o, m) || g == 0 then NOTHING else Owed(o.front + Pieces(m.payload, o.k, g), g, Need(o, m))
  }

  /** What is owed after a run. */
  function OwedAfter(run: seq<Sending>): (o: Owed)
    requires ValidRun(run)
    ensures Sound(o)
  {
    if run == [] then NOTHING else Next(OwedAfter(run[..|run| - 1]), run[|run| - 1])
  }

  /** Message i completes a packet, and with this payload. */
  predicate CompletesAt(run: seq<Sending>, i: nat)
    requires ValidRun(run) && i < |run|
  {
    Completes(OwedAfter(run[..i]), run[i])
  }

  function JoinedAt(run: seq<Sending>, i: nat): seq<Byte>
    requires ValidRun(run) && i < |run|
  {
    Joined(OwedAfter(run[..i]), run[i])
  }

  // ---- One piece

  /** The receiver's fields say what is owed. */
  predicate Holding(s: Pending, o: Owed) {
    && Sound(o) && s.currentPart == (o.k + 1) % 256 && s.payload == o.front
    && (o.k > 0 ==> s.totalNumberParts == o.n % 256)
  }

  lemma NextPiece(e: Envelope, payload: seq<Byte>, s: Pending, o: Owed)
    requires NumParts(|payload|) <= 256 && Holding(s, o) && o.k < NumParts(|payload|)
    ensures var n := if o.k == 0 then NumParts(|payload|) else o.n;
      var front := o.front + Pieces(payload, o.k, o.k + 1);
      var (t, out) := Step(s, Piece(e, payload, o.k));
      && o.k + 1 <= n
      && if o.k + 1 == n then t == FRESH && out == [front] else out == [] && Holding(t, Owed(front, o.k + 1, n))
  {
    hide Piece, Cut, NumParts, Pieces;
    PieceFields(e, payload, o.k);
    CutIsPieces(payload, o.k);
  }

  lemma CutIsPieces(payload: seq<Byte>, k: nat)
    requires k < NumParts(|payload|)
    ensures Cut(payload, k) == Pieces(payload, k, k + 1)
  {}

  lemma OutOfTurn(e: Envelope, payload: seq<Byte>, s: Pending, o: Owed, j: nat)
    requires j < NumParts(|payload|) <= 256 && Holding(s, o) && j != o.k
    ensures Step(s, Piece(e, payload, j)) == (s, [])
  {
    hide Piece, Cut, NumParts;
    PieceFields(e, payload, j);
  }

  lemma PiecesJoin(payload: seq<Byte>, i: nat, j: nat, k: nat)
    requires i <= j <= k
    ensures Pieces(payload, i, j) + Pieces(payload, j, k) == Pieces(payload, i, k)
  {}

  // ---- One message

  /** The gap is where it is said to be. */
  lemma GapIs(js: seq<nat>, k: nat, g: nat)
    requires forall i :: 0 <= i < |js| ==> js[i] < 256
    requires k <= g && g !in js && forall i :: k <= i < g ==> i in js
    ensures Gap(js, k) == g
  {
    hide Gap;
  }

  /** The message without its last piece. */
  predicate Shorter(front: Sending, m: Sending) {
    m.arrived != [] && front == m.(arrived := m.arrived[..|m.arrived| - 1])
  }

  lemma LastPiece(front: Sending, m: Sending)
    requires m.Valid() && Shorter(front, m)
    ensures var j := m.arrived[|m.arrived| - 1];
      && front.Valid() && j < NumParts(|m.payload|)
      && (forall i :: i in m.arrived <==> i in front.arrived || i == j)
      && forall i :: 0 <= i < |front.arrived| ==> front.arrived[i] < j
  {
    assert m.arrived == front.arrived + [m.arrived[|m.arrived| - 1]];
  }

  /** With another piece behind the others, the gap moves on only if it is the next one. */
  lemma GapMoves(front: Sending, m: Sending, k: nat)
    requires m.Valid() && front.Valid() && Shorter(front, m)
    ensures var g := Gap(front.arrived, k);
      Gap(m.arrived, k) == if m.arrived[|m.arrived| - 1] == g then g + 1 else g
  {
    hide Gap;
    LastPiece(front, m);
    var g, j := Gap(front.arrived, k), m.arrived[|m.arrived| - 1];
    GapIs(m.arrived, k, if j == g then g + 1 else g);
  }

  lemma StillOwed(s: Pending, o: Owed, m: Sending)
    requires m.Valid() && Holding(s, o) && !Completes(o, m)
    ensures var g, p := Gap(m.arrived, o.k), Next(o, m);
      && p.k == g < Need(o, m) && p.front == o.front + Pieces(m.payload, o.k, g) && (g > 0 ==> p.n == Need(o, m))
      && Need(p, m) == Need(o, m)
  {
    hide Gap, Pieces, NumParts;
    NoPieces(m.payload, 0);
  }

  lemma FrontJoins(front: seq<Byte>, payload: seq<Byte>, i: nat, j: nat, k: nat)
    requires i <= j <= k
    ensures (front + Pieces(payload, i, j)) + Pieces(payload, j, k) == front + Pieces(payload, i, k)
  {
    hide Pieces;
    PiecesJoin(payload, i, j, k);
    Associate(front, Pieces(payload, i, j), Pieces(payload, j, k));
  }

  /** The last piece is the next one. */
  lemma LastTaken(s: Pending, o: Owed, m: Sending, t: Pending, p: Owed, g: nat)
    requires m.Valid() && Holding(s, o) && Holding(t, p) && g < NumParts(|m.payload|)
    requires o.k <= g && Gap(m.arrived, o.k) == g + 1
    requires p.k == g < Need(o, m) && p.front == o.front + Pieces(m.payload, o.k, g) && Need(p, m) == Need(o, m)
    ensures var (u, out) := Step(t, Piece(m.envelope, m.payload, g));
      Holding(u, Next(o, m)) && out == if Completes(o, m) then [Joined(o, m)] else []
  {
    hide Step, Piece, Pieces, NumParts, Gap;
    NextPiece(m.envelope, m.payload, t, p);
    FrontJoins(o.front, m.payload, o.k, g, g + 1);
  }

  /** What the pieces of a message do to the receiver is the step from what was owed to what
      is owed, and the joined payload is handed on if it is complete. */
  predicate Meant(s: Pending, o: Owed, m: Sending)
    requires m.Valid() && Sound(o)
  {
    && Holding(After(s, m.envelope, m.payload, m.arrived), Next(o, m))
    && HandedOn(s, m.envelope, m.payload, m.arrived) == if Completes(o, m) then [Joined(o, m)] else []
  }

  lemma OnePieceMore(s: Pending, front: Sending, m: Sending)
    requires m.Valid() && front.Valid() && Shorter(front, m)
    ensures var p := Piece(m.envelope, m.payload, m.arrived[|m.arrived| - 1]);
      var (u, out) := Step(After(s, m.envelope, m.payload, front.arrived), p);
      && After(s, m.envelope, m.payload, m.arrived) == u
      && HandedOn(s, m.envelope, m.payload, m.arrived) == HandedOn(s, m.envelope, m.payload, front.arrived) + out
  {
    hide Step, Piece, NumParts;
  }

  lemma LastPieceMeant(s: Pending, o: Owed, front: Sending, m: Sending)
    requires m.Valid() && front.Valid() && Shorter(front, m) && Holding(s, o) && Meant(s, o, front)
    ensures Meant(s, o, m)
  {
    hide After, HandedOn, Step, Piece, Pieces, NumParts, Gap;
    var j, g := m.arrived[|m.arrived| - 1], Gap(front.arrived, o.k);
    OnePieceMore(s, front, m);
    LastPiece(front, m);
    GapMoves(front, m, o.k);
    var t, p := After(s, m.envelope, m.payload, front.arrived), Next(o, front);
    if Completes(o, front) {
      LateNumber(o, front, j);
      OutOfTurn(m.envelope, m.payload, t, p, j);
    } else {
      StillOwed(s, o, front);
      if j == g {
        LastTaken(s, o, m, t, p, g);
      } else {
        OutOfTurn(m.envelope, m.payload, t, p, j);
      }
    }
  }

  /** Behind a complete packet, no piece is a first one. */
  lemma LateNumber(o: Owed, front: Sending, j: nat)
    requires front.Valid() && Completes(o, front) && 0 < Need(o, front) && o.k < Need(o, front)
    requires forall i :: 0 <= i < |front.arrived| ==> front.arrived[i] < j
    ensures j > 0
  {
    hide Gap, NumParts;
    assert Need(o, front) - 1 in front.arrived;
  }

  lemma {:induction false} SendingMeans(s: Pending, o: Owed, m: Sending)
    requires m.Valid() && Holding(s, o)
    ensures Meant(s, o, m)
    decreases |m.arrived|
  {
    if m.arrived == [] {
      NoneArrived(s, o, m);
    } else {
      hide Meant, Holding;
      var front := m.(arrived := m.arrived[..|m.arrived| - 1]);
      LastPiece(front, m);
      SendingMeans(s, o, front);
      LastPieceMeant(s, o, front, m);
    }
  }

  lemma NoneArrived(s: Pending, o: Owed, m: Sending)
    requires m.Valid() && Holding(s, o) && m.arrived == []
    ensures Meant(s, o, m)
  {
    hide Gap, Pieces, NumParts;
    GapIs([], o.k, o.k);
    NoPieces(m.payload, o.k);
    assert o.front + [] == o.front;
  }

  lemma NoPieces(payload: seq<Byte>, k: nat)
    ensures Pieces(payload, k, k) == []
  {}

  // ---- Whole runs

  /** The payloads of all completed packets. */
  function AllJoined(run: seq<Sending>): seq<seq<Byte>>
    requires ValidRun(run)
  {
    if run == [] then []
    else
      var n := |run| - 1;
      AllJoined(run[..n]) + if CompletesAt(run, n) then [JoinedAt(run, n)] else []
  }

  /** Piece after piece, the receiver hands on what is joined message by message. */
  lemma {:induction false} RunMeans(run: seq<Sending>)
    requires ValidRun(run)
    ensures Holding(RunState(run), OwedAfter(run)) && RunHandedOn(run) == AllJoined(run)
  {
    hide After, HandedOn, Next, Joined, Completes, Sending.Valid;
    if run != [] {
      var n := |run| - 1;
      RunMeans(run[..n]);
      SendingMeans(RunState(run[..n]), OwedAfter(run[..n]), run[n]);
    }
  }

  lemma {:induction false} AmongJoined(run: seq<Sending>, p: seq<Byte>)
    requires ValidRun(run)
    ensures p in AllJoined(run) <==> exists i | 0 <= i < |run| :: CompletesAt(run, i) && JoinedAt(run, i) == p
  {
    hide Next, Joined, Completes, Sending.Valid;
    if run != [] {
      var n := |run| - 1;
      AmongJoined(run[..n], p);
      forall i | 0 <= i < n
        ensures CompletesAt(run, i) == CompletesAt(run[..n], i) && JoinedAt(run, i) == JoinedAt(run[..n], i)
      {
        assert run[..n][..i] == run[..i];
      }
    }
  }

  predicate IsPayload(run: seq<Sending>, p: seq<Byte>) { exists i :: 0 <= i < |run| && run[i].payload == p }

  /** Message i completes a packet that an earlier message began. */
  predicate MixesAt(run: seq<Sending>, i: nat)
    requires ValidRun(run) && i < |run|
  {
    OwedAfter(run[..i]).k > 0 && CompletesAt(run, i)
  }

  /** Only whole messages are handed on if and only if no message completes the packet of an
      earlier one, or what is joined that way happens to be a message of the run. */
  lemma WholeExactly(run: seq<Sending>)
    requires ValidRun(run)
    ensures (forall p :: p in RunHandedOn(run) ==> IsPayload(run, p))
       <==> forall i :: 0 <= i < |run| && MixesAt(run, i) ==> IsPayload(run, JoinedAt(run, i))
  {
    hide Next, Joined, Completes, Sending.Valid, OwedAfter, RunHandedOn, AllJoined, IsPayload;
    RunMeans(run);
    forall i | 0 <= i < |run| && CompletesAt(run, i) ensures JoinedAt(run, i) in RunHandedOn(run) {
      AmongJoined(run, JoinedAt(run, i));
    }
    forall i | 0 <= i < |run| && OwedAfter(run[..i]).k == 0 ensures IsPayload(run, JoinedAt(run, i)) {
      JoinedAlone(run, i);
    }
    forall p | p in RunHandedOn(run)
      ensures exists i | 0 <= i < |run| :: CompletesAt(run, i) && JoinedAt(run, i) == p
    {
      AmongJoined(run, p);
    }
  }

  lemma JoinedAlone(run: seq<Sending>, i: nat)
    requires ValidRun(run) && i < |run| && OwedAfter(run[..i]).k == 0
    ensures JoinedAt(run, i) == run[i].payload && IsPayload(run, JoinedAt(run, i))
  {
    hide OwedAfter, NumParts, Pieces;
    AllPieces(run[i].payload);
  }

  lemma AllPieces(payload: seq<Byte>)
    ensures Pieces(payload, 0, NumParts(|payload|)) == payload
  {}

  // ---- Which losses do harm

  /** The payloads of the messages that arrive whole. */
  function CompleteOnes(run: seq<Sending>): seq<seq<Byte>> {
    if run == [] then []
    else
      var m := run[|run| - 1];
      CompleteOnes(run[..|run| - 1]) + if m.Complete() then [m.payload] else []
  }

  /** If every message arrives whole or without its first piece, exactly the whole ones are
      handed on, in order, and nothing is owed at the end. */
  lemma {:induction false} WholeOrHeadless(run: seq<Sending>)
    requires ValidRun(run) && forall i :: 0 <= i < |run| ==> run[i].Complete() || 0 !in run[i].arrived
    ensures RunHandedOn(run) == CompleteOnes(run) && OwedAfter(run).k == 0
  {
    hide RunHandedOn, Sending.Valid, Next, Joined, Completes, Sending.Complete;
    RunMeans(run);
    if run != [] {
      var n := |run| - 1;
      WholeOrHeadless(run[..n]);
      RunMeans(run[..n]);
      FromNothing(OwedAfter(run[..n]), run[n]);
    }
  }

  lemma FromNothing(o: Owed, m: Sending)
    requires m.Valid() && Sound(o) && o.k == 0
    ensures Completes(o, m) <==> m.Complete()
    ensures Joined(o, m) == m.payload
    ensures Next(o, m).k == 0 <==> m.Complete() || 0 !in m.arrived
  {
    hide NumParts, Pieces;
    AllPieces(m.payload);
  }

  /** A message that arrives whole is sure to be handed on if and only if nothing is owed
      before it. */
  lemma NextMessage(run: seq<Sending>)
    requires ValidRun(run)
    ensures OwedAfter(run).k == 0
       <==> forall m: Sending :: m.Valid() && m.Complete() ==> HandsOn(run, m)
  {
    hide Sending.Valid, Sending.Complete, OwedAfter, HandsOn;
    if OwedAfter(run).k == 0 {
      forall m: Sending | m.Valid() && m.Complete() ensures HandsOn(run, m) {
        FromNothing(OwedAfter(run), m);
        OneMore(run, m);
      }
    } else {
      var m := Sending(Envelope([0, 0, 0], [0, 0, 0], 0), [0], [0]);
      OnePiece(OwedAfter(run), m);
      OneMore(run, m);
    }
  }

  predicate HandsOn(run: seq<Sending>, m: Sending)
    requires ValidRun(run) && m.Valid()
  {
    RunHandedOn(run + [m]) == RunHandedOn(run) + [m.payload]
  }

  lemma OneMore(run: seq<Sending>, m: Sending)
    requires ValidRun(run) && m.Valid()
    ensures ValidRun(run + [m])
    ensures HandsOn(run, m) <==> Completes(OwedAfter(run), m) && Joined(OwedAfter(run), m) == m.payload
  {
    hide Sending.Valid, Completes, Joined, OwedAfter, RunHandedOn;
    var more := run + [m];
    assert more[..|run|] == run;
    RunMeans(run);
    RunMeans(more);
    var done, last := AllJoined(run), if CompletesAt(more, |run|) then [JoinedAt(more, |run|)] else [];
    assert RunHandedOn(more) == done + last;
    assert (done + last)[|done|..] == last && (done + [m.payload])[|done|..] == [m.payload];
  }

  lemma OnePiece(o: Owed, m: Sending)
    requires Sound(o) && o.k > 0 && |m.payload| == 1 && m.arrived == [0]
    ensures m.Valid() && m.Complete() && !Completes(o, m)
  {
    GapIs(m.arrived, o.k, o.k);
    assert 0 in m.arrived;
  }

  /** Two messages of two pieces: the second one's last piece completes the first. */
  lemma MixedUp(e: Envelope)
    ensures var p, q := seq(193, _ => 0), seq(193, _ => 1);
      var run := [Sending(e, p, [0]), Sending(e, q, [0, 1])];
      && ValidRun(run) && run[1].Complete()
      && RunHandedOn(run) == [p[..192] + q[192..]] && !IsPayload(run, p[..192] + q[192..])
  {
    hide RunHandedOn, OwedAfter;
    var p: seq<Byte>, q: seq<Byte> := seq(193, _ => 0), seq(193, _ => 1);
    var a, b := Sending(e, p, [0]), Sending(e, q, [0, 1]);
    FirstLost(a);
    LastJoins(a, b);
    var mixed := p[..192] + q[192..];
    assert mixed[0] == 0 && mixed[192] == 1;
  }

  lemma FirstLost(a: Sending)
    requires |a.payload| == 193 && a.arrived == [0]
    ensures ValidRun([a]) && RunHandedOn([a]) == [] && OwedAfter([a]) == Owed(a.payload[..192], 1, 2)
  {
    hide RunHandedOn;
    var run := [a];
    assert run[..0] == [];
    GapIs(a.arrived, 0, 1);
    RunMeans(run);
    assert [] + Pieces(a.payload, 0, 1) == a.payload[..192];
    assert AllJoined(run) == AllJoined([]) + [];
  }

  lemma LastJoins(a: Sending, b: Sending)
    requires |a.payload| == 193 && ValidRun([a])
    requires RunHandedOn([a]) == [] && OwedAfter([a]) == Owed(a.payload[..192], 1, 2)
    requires |b.payload| == 193 && b.arrived == [0, 1]
    ensures ValidRun([a, b]) && b.Complete() && RunHandedOn([a, b]) == [a.payload[..192] + b.payload[192..]]
  {
    hide RunHandedOn, OwedAfter, Sending.Valid;
    var run := [a, b];
    ValidPair(a, b);
    assert run[..1] == [a];
    GapIs(b.arrived, 1, 2);
    RunMeans([a]);
    RunMeans(run);
    assert Pieces(b.payload, 1, 2) == b.payload[192..];
    assert AllJoined(run) == AllJoined([a]) + [JoinedAt(run, 1)];
  }

  lemma ValidPair(a: Sending, b: Sending)
    requires ValidRun([a]) && |b.payload| == 193 && b.arrived == [0, 1]
    ensures ValidRun([a, b]) && b.Complete()
  {
    assert a == [a][0];
    assert 0 in b.arrived && 1 in b.arrived;
  }
}
