/** Multipart messages over RadioDoge: the two splitters (PacketHelper.cs and serdog.c) and
    the reassembly (MultipartPacket.cs, SerialPortManager.cs). */
module Multipart {
  import opened Arith
  import opened Bytes

  const MAX_PAYLOAD_BYTES := 192

  type Address = a: seq<Byte> | |a| == 3 witness [0, 0, 0]

  /** What all pieces of a message share. */
  datatype Envelope = Envelope(sender: Address, destination: Address, messageId: Byte)

  function NumParts(len: nat): nat {
    len / MAX_PAYLOAD_BYTES + if len % MAX_PAYLOAD_BYTES != 0 then 1 else 0
  }

  /** The payload bytes of piece i. */
  function Cut(payload: seq<Byte>, i: nat): (d: seq<Byte>)
    requires i < NumParts(|payload|)
    ensures 1 <= |d| <= MAX_PAYLOAD_BYTES
  {
    payload[MAX_PAYLOAD_BYTES * i..Min(MAX_PAYLOAD_BYTES * (i + 1), |payload|)]
  }

  /** Piece i as the receiver gets it, the two-byte headers taken off. The piece number and
      the number of pieces are bytes. */
  function Piece(e: Envelope, payload: seq<Byte>, i: nat): (p: seq<Byte>)
    requires i < NumParts(|payload|)
    ensures 11 <= |p| <= 202
  {
    e.sender + e.destination + [e.messageId, 0, (i + 1) % 256, NumParts(|payload|) % 256] + Cut(payload, i)
  }

  /** A packet: its headers, the addresses, the message number, a zero, the piece number and
      the number of pieces, and the bytes of the piece. */
  lemma PacketBytes(h: seq<Byte>, e: Envelope, payload: seq<Byte>, i: nat)
    requires i < NumParts(|payload|)
    ensures 0 <= 192 * i < |payload|
    ensures h + Piece(e, payload, i)
         == h + e.sender + e.destination + [e.messageId, 0, (i + 1) % 256, NumParts(|payload|) % 256]
          + payload[192 * i..Min(192 * (i + 1), |payload|)]
    ensures |Piece(e, payload, i)| == 10 + Min(192, |payload| - 192 * i)
  {}

  // ---- The splitters

  /** One piece behind its two headers. */
  method FormPacket(commandType: Byte, destAddress: Address, localAddress: Address, payload: seq<Byte>,
                    payloadInd: nat, currPayloadLength: nat, i: nat, totalNumPackets: nat)
    returns (currPacketBytes: seq<Byte>)
    requires i < totalNumPackets == NumParts(|payload|) && payloadInd + currPayloadLength <= |payload|
    requires payload[payloadInd..payloadInd + currPayloadLength] == Cut(payload, i)
    ensures var p := Piece(Envelope(localAddress, destAddress, 123), payload, i);
      currPacketBytes == [commandType, |p| + 2, commandType, |p|] + p
  {
    hide Cut, NumParts;
    currPacketBytes := [commandType, currPayloadLength + 12];
    currPacketBytes := currPacketBytes + [commandType, currPayloadLength + 10];
    currPacketBytes := currPacketBytes + localAddress;
    currPacketBytes := currPacketBytes + destAddress;
    currPacketBytes := currPacketBytes + [123, 0, (i + 1) % 256, totalNumPackets % 256];
    currPacketBytes := currPacketBytes + payload[payloadInd..payloadInd + currPayloadLength];
  }

  /** PacketHelper.CreateMultipartPackets: each piece behind a serial and a packet header. */
  method CreateMultipartPackets(commandType: Byte, destAddress: Address, localAddress: Address, payload: seq<Byte>)
    returns (allPacketParts: seq<seq<Byte>>)
    ensures |allPacketParts| == NumParts(|payload|)
    ensures forall i | 0 <= i < |allPacketParts| ::
              var p := Piece(Envelope(localAddress, destAddress, 123), payload, i);
              allPacketParts[i] == [commandType, |p| + 2, commandType, |p|] + p
    ensures forall i | 0 <= i < |allPacketParts| ::
              var len := Min(192, |payload| - 192 * i);
              allPacketParts[i] == [commandType, len + 12, commandType, len + 10] + localAddress + destAddress
                + [123, 0, (i + 1) % 256, |allPacketParts| % 256] + payload[192 * i..Min(192 * (i + 1), |payload|)]
  {
    var totalNumPackets := |payload| / MAX_PAYLOAD_BYTES;
    if |payload| % MAX_PAYLOAD_BYTES != 0 {
      totalNumPackets := totalNumPackets + 1;
    }
    var payloadLeft, payloadInd := |payload|, 0;
    allPacketParts := [];
    for i := 0 to totalNumPackets
      invariant |allPacketParts| == i && payloadInd == Min(MAX_PAYLOAD_BYTES * i, |payload|)
      invariant payloadLeft == |payload| - payloadInd
      invariant forall j | 0 <= j < i ::
                  var p := Piece(Envelope(localAddress, destAddress, 123), payload, j);
                  allPacketParts[j] == [commandType, |p| + 2, commandType, |p|] + p
    {
      var currPayloadLength := if payloadLeft >= MAX_PAYLOAD_BYTES then MAX_PAYLOAD_BYTES else payloadLeft;
      assert payload[payloadInd..payloadInd + currPayloadLength] == Cut(payload, i);
      var currPacketBytes :=
        FormPacket(commandType, destAddress, localAddress, payload, payloadInd, currPayloadLength, i, totalNumPackets);
      payloadInd := payloadInd + currPayloadLength;
      payloadLeft := payloadLeft - currPayloadLength;
      allPacketParts := allPacketParts + [currPacketBytes];
    }
    forall i | 0 <= i < |allPacketParts|
      ensures var len := Min(192, |payload| - 192 * i);
        allPacketParts[i] == [commandType, len + 12, commandType, len + 10] + localAddress + destAddress
          + [123, 0, (i + 1) % 256, |allPacketParts| % 256] + payload[192 * i..Min(192 * (i + 1), |payload|)]
    {
      var e := Envelope(localAddress, destAddress, 123);
      var n := |Piece(e, payload, i)|;
      PacketBytes([commandType, n + 2, commandType, n], e, payload, i);
    }
  }

  /** cmdSendMultipartMessage: what is handed to sendCommand, one packet after another. */
  method CmdSendMultipartMessage(cmdType: Byte, inAddr: Address, destAddr: Address, payload: seq<Byte>, messageId: Byte)
    returns (sent: seq<seq<Byte>>)
    ensures |sent| == NumParts(|payload|)
    ensures forall i | 0 <= i < |sent| ::
              var p := Piece(Envelope(inAddr, destAddr, messageId), payload, i);
              sent[i] == [cmdType, |p|] + p
    ensures forall i | 0 <= i < |sent| ::
              var len := Min(192, |payload| - 192 * i);
              sent[i] == [cmdType, len + 10] + inAddr + destAddr
                + [messageId, 0, (i + 1) % 256, |sent| % 256] + payload[192 * i..Min(192 * (i + 1), |payload|)]
  {
    var totalNumParts := |payload| / MAX_PAYLOAD_BYTES;
    if |payload| % MAX_PAYLOAD_BYTES != 0 {
      totalNumParts := totalNumParts + 1;
    }
    var payloadLeft, payloadInd := |payload|, 0;
    sent := [];
    for i := 1 to totalNumParts + 1
      invariant |sent| == i - 1 && payloadInd == Min(MAX_PAYLOAD_BYTES * (i - 1), |payload|)
      invariant payloadLeft == |payload| - payloadInd
      invariant forall j | 0 <= j < |sent| ::
                  var p := Piece(Envelope(inAddr, destAddr, messageId), payload, j);
                  sent[j] == [cmdType, |p|] + p
    {
      var currPayloadLen := if payloadLeft >= MAX_PAYLOAD_BYTES then MAX_PAYLOAD_BYTES else payloadLeft;
      var currentPacket: seq<Byte> := [cmdType, currPayloadLen + 10] + inAddr + destAddr;
      currentPacket := currentPacket + [messageId, 0, i % 256, totalNumParts % 256];
      currentPacket := currentPacket + payload[payloadInd..payloadInd + currPayloadLen];
      assert payload[payloadInd..payloadInd + currPayloadLen] == Cut(payload, i - 1);
      ghost var p := Piece(Envelope(inAddr, destAddr, messageId), payload, i - 1);
      assert currentPacket == [cmdType, |p|] + p;
      sent := sent + [currentPacket];
      payloadInd := payloadInd + currPayloadLen;
      payloadLeft := payloadLeft - currPayloadLen;
    }
    forall i | 0 <= i < |sent|
      ensures var len := Min(192, |payload| - 192 * i);
        sent[i] == [cmdType, len + 10] + inAddr + destAddr
          + [messageId, 0, (i + 1) % 256, |sent| % 256] + payload[192 * i..Min(192 * (i + 1), |payload|)]
    {
      var e := Envelope(inAddr, destAddr, messageId);
      var n := |Piece(e, payload, i)|;
      PacketBytes([cmdType, n], e, payload, i);
    }
  }

  // ---- Reassembly

  datatype Code = Incomplete | Complete | MissingPiece

  class MultipartPacket {
    var currentPart: Byte
    var totalNumberParts: Byte
    var senderAddress: seq<Byte>
    var reassembledPayload: seq<Byte>

    constructor ()
      ensures currentPart == 1 && totalNumberParts == 0 && senderAddress == [] && reassembledPayload == []
    {
      currentPart, totalNumberParts, senderAddress, reassembledPayload := 1, 0, [], [];
    }

    function State(): Pending
      reads this
    {
      Pending(currentPart, totalNumberParts, senderAddress, reassembledPayload)
    }

    /** AddPacketPiece: a piece counts only in its turn; the first one says how many there are. */
    method AddPacketPiece(raw: seq<Byte>) returns (code: Code)
      requires |raw| >= 10
      modifies this
      ensures (State(), code) == Accept(old(State()), raw)
    {
      if currentPart == raw[8] {
        if currentPart == 1 {
          senderAddress := raw[..3];
          totalNumberParts := raw[9];
        }
        reassembledPayload := reassembledPayload + raw[10..];
      } else {
        return MissingPiece;
      }
      if currentPart == totalNumberParts {
        return Complete;
      }
      currentPart := (currentPart as int + 1) % 256;
      return Incomplete;
    }
  }

  /** The fields of a MultipartPacket. */
  datatype Pending = Pending(currentPart: Byte, totalNumberParts: Byte, sender: seq<Byte>, payload: seq<Byte>)

  const FRESH := Pending(1, 0, [], [])

  function Accept(s: Pending, raw: seq<Byte>): (Pending, Code)
    requires |raw| >= 10
  {
    if s.currentPart != raw[8] then (s, MissingPiece)
    else
      var t := if s.currentPart == 1 then s.(sender := raw[..3], totalNumberParts := raw[9]) else s;
      var u := t.(payload := t.payload + raw[10..]);
      if u.currentPart == u.totalNumberParts then (u, Complete)
      else (u.(currentPart := (u.currentPart as int + 1) % 256), Incomplete)
  }

  /** The multipart branch of PortDataReceived: a complete payload is handed on and a fresh
      packet begun. */
  method Receive(packet: MultipartPacket, raw: seq<Byte>) returns (next: MultipartPacket, handedOn: seq<seq<Byte>>)
    requires |raw| >= 10
    modifies packet
    ensures (next.State(), handedOn) == Step(old(packet.State()), raw)
  {
    next, handedOn := packet, [];
    var result := packet.AddPacketPiece(raw);
    if result == Complete {
      handedOn := [packet.reassembledPayload];
      next := new MultipartPacket();
    }
  }

  function Step(s: Pending, raw: seq<Byte>): (Pending, seq<seq<Byte>>)
    requires |raw| >= 10
  {
    var (t, code) := Accept(s, raw);
    if code == Complete then (FRESH, [t.payload]) else (t, [])
  }

  // ---- Runs

  predicate PiecesOf(js: seq<nat>, payload: seq<Byte>) {
    forall i | 0 <= i < |js| :: js[i] < NumParts(|payload|)
  }

  /** The state after the pieces js of one message have arrived, in this order. */
  function After(s: Pending, e: Envelope, payload: seq<Byte>, js: seq<nat>): Pending
    requires PiecesOf(js, payload)
  {
    if js == [] then s
    else Step(After(s, e, payload, js[..|js| - 1]), Piece(e, payload, js[|js| - 1])).0
  }

  /** What has been handed on by then. */
  function HandedOn(s: Pending, e: Envelope, payload: seq<Byte>, js: seq<nat>): seq<seq<Byte>>
    requires PiecesOf(js, payload)
  {
    if js == [] then []
    else
      var n := |js| - 1;
      HandedOn(s, e, payload, js[..n]) + Step(After(s, e, payload, js[..n]), Piece(e, payload, js[n])).1
  }

  /** k pieces have been taken. */
  predicate Taken(s: Pending, payload: seq<Byte>, k: nat) {
    && k < NumParts(|payload|) && s.currentPart == (k + 1) % 256
    && (k > 0 ==> s.totalNumberParts == NumParts(|payload|) % 256)
    && s.payload == payload[..Min(MAX_PAYLOAD_BYTES * k, |payload|)]
  }

  lemma PieceFields(e: Envelope, payload: seq<Byte>, i: nat)
    requires i < NumParts(|payload|)
    ensures var p := Piece(e, payload, i);
      p[..3] == e.sender && p[8] == (i + 1) % 256 && p[9] == NumParts(|payload|) % 256 && p[10..] == Cut(payload, i)
  {}

  /** The number of parts and the length of what the first k of them cut off. */
  lemma Lengths(payload: seq<Byte>, k: nat)
    requires k <= NumParts(|payload|)
    ensures k == NumParts(|payload|) <==> Min(MAX_PAYLOAD_BYTES * k, |payload|) == |payload|
    ensures k < NumParts(|payload|) ==> MAX_PAYLOAD_BYTES * k < |payload|
    ensures NumParts(|payload|) <= 256 <==> |payload| <= 256 * MAX_PAYLOAD_BYTES
  {}

  /** The next piece is taken; the packet is complete when its number is the count, as bytes. */
  lemma TakeNext(e: Envelope, payload: seq<Byte>, s: Pending, k: nat)
    requires Taken(s, payload, k)
    ensures var n, (t, out) := NumParts(|payload|), Step(s, Piece(e, payload, k));
      if (k + 1) % 256 == n % 256
      then t == FRESH && out == [payload[..Min(MAX_PAYLOAD_BYTES * (k + 1), |payload|)]]
      else out == [] && k + 1 < n && Taken(t, payload, k + 1)
  {
    hide Piece, Cut, NumParts, Min;
    PieceFields(e, payload, k);
    CutNext(payload, k);
  }

  lemma CutNext(payload: seq<Byte>, k: nat)
    requires k < NumParts(|payload|)
    ensures 0 <= Min(MAX_PAYLOAD_BYTES * k, |payload|) <= |payload|
    ensures 0 <= Min(MAX_PAYLOAD_BYTES * (k + 1), |payload|) <= |payload|
    ensures payload[..Min(MAX_PAYLOAD_BYTES * k, |payload|)] + Cut(payload, k)
         == payload[..Min(MAX_PAYLOAD_BYTES * (k + 1), |payload|)]
  {}

  /** Any other piece is not. */
  lemma OtherPiece(e: Envelope, payload: seq<Byte>, s: Pending, k: nat, i: nat)
    requires Taken(s, payload, k) && i < NumParts(|payload|) <= 256 && i != k
    ensures Step(s, Piece(e, payload, i)) == (s, [])
  {
    hide Piece, Cut, NumParts, Min;
    PieceFields(e, payload, i);
  }

  /** One more piece, from a message of up to 256 pieces, whichever piece it is. */
  lemma TakeStep(e: Envelope, payload: seq<Byte>, s: Pending, k: nat, i: nat)
    requires 1 <= NumParts(|payload|) <= 256 && i < NumParts(|payload|) && Taken(s, payload, k)
    ensures var (t, out) := Step(s, Piece(e, payload, i));
      if i != k then t == s && out == []
      else if k + 1 < NumParts(|payload|) then Taken(t, payload, k + 1) && out == []
      else t == FRESH && out == [payload]
  {
    hide Step, Piece, NumParts, Min;
    if i != k {
      OtherPiece(e, payload, s, k, i);
    } else {
      Lengths(payload, k);
      TakeNext(e, payload, s, k);
      Lengths(payload, k + 1);
      assert payload[..|payload|] == payload;
    }
  }

  /** However the pieces of one message are dropped, repeated or reordered, only the whole
      payload is ever handed on. */
  lemma {:induction false} OnlyTheMessage(e: Envelope, payload: seq<Byte>, js: seq<nat>) returns (k: nat)
    requires 1 <= NumParts(|payload|) <= 256 && PiecesOf(js, payload)
    ensures forall p | p in HandedOn(FRESH, e, payload, js) :: p == payload
    ensures Taken(After(FRESH, e, payload, js), payload, k)
    decreases |js|
  {
    if js == [] {
      k := 0;
    } else {
      var n := |js| - 1;
      k := OnlyTheMessage(e, payload, js[..n]);
      TakeStep(e, payload, After(FRESH, e, payload, js[..n]), k, js[n]);
      if js[n] == k {
        k := if k + 1 < NumParts(|payload|) then k + 1 else 0;
      }
    }
  }

  /** The first n pieces in order. */
  function InOrder(n: nat): (js: seq<nat>)
    ensures |js| == n
  {
    seq(n, i requires 0 <= i < n => i)
  }

  lemma InOrderLast(n: nat)
    requires n > 0
    ensures InOrder(n)[..n - 1] == InOrder(n - 1) && InOrder(n)[n - 1] == n - 1
  {}

  /** In order and without losses, a message of up to 256 pieces is complete with its last
      piece and not before. */
  lemma {:induction false} InOrderDelivery(e: Envelope, payload: seq<Byte>, n: nat)
    requires n <= NumParts(|payload|) && 1 <= NumParts(|payload|) <= 256
    ensures PiecesOf(InOrder(n), payload)
    ensures if n < NumParts(|payload|)
      then Taken(After(FRESH, e, payload, InOrder(n)), payload, n) && HandedOn(FRESH, e, payload, InOrder(n)) == []
      else After(FRESH, e, payload, InOrder(n)) == FRESH && HandedOn(FRESH, e, payload, InOrder(n)) == [payload]
  {
    if n > 0 {
      InOrderDelivery(e, payload, n - 1);
      InOrderLast(n);
      TakeStep(e, payload, After(FRESH, e, payload, InOrder(n - 1)), n - 1, n - 1);
    }
  }

  /** With more pieces than that, the byte that counts them has wrapped, and the first
      payload handed on is a beginning of the message only. */
  lemma {:induction false} WrappedCount(e: Envelope, payload: seq<Byte>, n: nat)
    requires NumParts(|payload|) > 256 && n <= FirstWrong(payload)
    ensures PiecesOf(InOrder(n), payload)
    ensures if n < FirstWrong(payload)
      then Taken(After(FRESH, e, payload, InOrder(n)), payload, n) && HandedOn(FRESH, e, payload, InOrder(n)) == []
      else HandedOn(FRESH, e, payload, InOrder(n)) == [payload[..192 * n]]
           && 192 * n < |payload|
  {
    hide Step, Piece, Taken, FirstWrong;
    if n == 0 {
      TakenNothing(payload);
    } else {
      WrappedCount(e, payload, n - 1);
      InOrderLast(n);
      TakeNext(e, payload, After(FRESH, e, payload, InOrder(n - 1)), n - 1);
      WrongAt(payload, n);
      Lengths(payload, n);
    }
  }

  lemma TakenNothing(payload: seq<Byte>)
    requires NumParts(|payload|) > 0
    ensures Taken(FRESH, payload, 0)
  {}

  lemma WrongAt(payload: seq<Byte>, n: nat)
    requires 1 <= n <= FirstWrong(payload)
    ensures n % 256 == NumParts(|payload|) % 256 <==> n == FirstWrong(payload)
  {
    hide NumParts;
  }

  /** The piece whose number equals the wrapped count. */
  function FirstWrong(payload: seq<Byte>): (k: nat)
    ensures 1 <= k <= 256
  {
    if NumParts(|payload|) % 256 == 0 then 256 else NumParts(|payload|) % 256
  }

  /** Sending in order hands on exactly the message, once, if and only if it has at most
      256 pieces (49152 bytes). */
  lemma DeliveredExactly(e: Envelope, payload: seq<Byte>)
    requires payload != []
    ensures PiecesOf(InOrder(NumParts(|payload|)), payload)
    ensures HandedOn(FRESH, e, payload, InOrder(NumParts(|payload|))) == [payload]
       <==> |payload| <= 49152
  {
    hide After, HandedOn, FirstWrong, NumParts, PiecesOf;
    var n := NumParts(|payload|);
    Lengths(payload, n);
    Lengths(payload, 0);
    if n <= 256 {
      InOrderDelivery(e, payload, n);
    } else {
      var k := FirstWrong(payload);
      WrappedCount(e, payload, k);
      FirstStays(e, payload, k, n);
      var first := HandedOn(FRESH, e, payload, InOrder(k));
      assert first[0] == HandedOn(FRESH, e, payload, InOrder(n))[0];
      assert |first[0]| < |payload|;
    }
  }

  /** What has been handed on first stays first. */
  lemma {:induction false} FirstStays(e: Envelope, payload: seq<Byte>, k: nat, n: nat)
    requires k <= n <= NumParts(|payload|)
    ensures PiecesOf(InOrder(n), payload) && PiecesOf(InOrder(k), payload)
    ensures HandedOn(FRESH, e, payload, InOrder(k)) <= HandedOn(FRESH, e, payload, InOrder(n))
  {
    hide Step, Piece, NumParts;
    if k < n {
      FirstStays(e, payload, k, n - 1);
      InOrderLast(n);
    }
  }

}
