/** The peer-to-peer message frames of protocol.c and their reassembly from a byte stream
    in read_cb of net.c. */
module Framing {
  import opened Sequences
  import opened Bytes
  import opened Words

  const P2P_HDRSZ := 24
  const MAX_P2P_MSG_SIZE := 0x003D0900

  /** dogecoin_p2p_msg_hdr. */
  datatype Header = Header(netmagic: seq<Byte>, command: seq<Byte>, dataLen: Word, hash: seq<Byte>)

  /** What the message handler is given: a header, and the first dataLen bytes behind it. */
  datatype Message = Message(hdr: Header, payload: seq<Byte>)

  /** Whether the peer is still connected behind the last of these messages: all that have
      been handed on so far, in order, so the answer may depend on any state they leave. */
  type Handler = seq<Message> -> bool

  // ---- The stream taken in at once

  function HeaderIn(s: seq<Byte>): Header
    requires |s| >= P2P_HDRSZ
  {
    Header(s[..4], s[4..16], WordAt(s[16..20], 0), s[20..24])
  }

  /** The messages of a stream in order, the bytes of the unfinished last one, and whether
      the peer is still connected; `past` are the messages before. */
  datatype Parsed = Parsed(messages: seq<Message>, tail: seq<Byte>, open: bool)

  function Parse(h: Handler, past: seq<Message>, s: seq<Byte>): Parsed
    decreases |s|
  {
    if |s| < P2P_HDRSZ then Parsed([], s, true)
    else
      var hdr := HeaderIn(s);
      var end := P2P_HDRSZ + hdr.dataLen;
      if hdr.dataLen > MAX_P2P_MSG_SIZE then Parsed([], s, false)
      else if |s| < end then Parsed([], s, true)
      else
        var m := Message(hdr, s[P2P_HDRSZ..end]);
        if h(past + [m]) then
          var r := Parse(h, past + [m], s[end..]);
          Parsed([m] + r.messages, r.tail, r.open)
        else Parsed([m], s[end..], false)
  }

  /** The end of the message at the front, if its header is there. */
  function End(s: seq<Byte>): nat
    requires |s| >= P2P_HDRSZ
  {
    P2P_HDRSZ + HeaderIn(s).dataLen
  }

  function Front(s: seq<Byte>): Message
    requires |s| >= P2P_HDRSZ && |s| >= End(s)
  {
    Message(HeaderIn(s), s[P2P_HDRSZ..End(s)])
  }

  lemma ParseUnfinished(h: Handler, past: seq<Message>, s: seq<Byte>)
    ensures |s| < P2P_HDRSZ ==> Parse(h, past, s) == Parsed([], s, true)
    ensures |s| >= P2P_HDRSZ && HeaderIn(s).dataLen > MAX_P2P_MSG_SIZE ==> Parse(h, past, s) == Parsed([], s, false)
    ensures |s| >= P2P_HDRSZ && HeaderIn(s).dataLen <= MAX_P2P_MSG_SIZE && |s| < End(s) ==>
              Parse(h, past, s) == Parsed([], s, true)
  {
    hide WordAt;
  }

  lemma ParseFront(h: Handler, past: seq<Message>, s: seq<Byte>)
    requires |s| >= P2P_HDRSZ && HeaderIn(s).dataLen <= MAX_P2P_MSG_SIZE && |s| >= End(s)
    ensures var m := Front(s);
      var r := Parse(h, past + [m], s[End(s)..]);
      Parse(h, past, s)
      == if h(past + [m]) then Parsed([m] + r.messages, r.tail, r.open) else Parsed([m], s[End(s)..], false)
  {
    hide WordAt;
  }

  /** More bytes: what was parsed stays, and parsing goes on from the tail. */
  lemma {:induction false} ParseAppend(h: Handler, past: seq<Message>, a: seq<Byte>, b: seq<Byte>)
    ensures var p, q := Parse(h, past, a), Parse(h, past, a + b);
      if p.open then
        var r := Parse(h, past + p.messages, p.tail + b);
        q.messages == p.messages + r.messages && q.tail == r.tail && q.open == r.open
      else q.messages == p.messages && !q.open
    decreases |a|
  {
    hide Parse, HeaderIn, WordAt;
    ParseUnfinished(h, past, a);
    assert past + [] == past;
    if |a| >= P2P_HDRSZ {
      HeaderKept(a, b);
      if HeaderIn(a).dataLen > MAX_P2P_MSG_SIZE {
        ParseUnfinished(h, past, a + b);
      } else if |a| >= End(a) {
        var end := End(a);
        var m := Front(a);
        ParseFront(h, past, a);
        ParseFront(h, past, a + b);
        assert (a + b)[P2P_HDRSZ..end] == a[P2P_HDRSZ..end];
        assert (a + b)[end..] == a[end..] + b;
        ParseAppend(h, past + [m], a[end..], b);
        var p := Parse(h, past + [m], a[end..]);
        Associate(past, [m], p.messages);
        Associate([m], p.messages, Parse(h, past + [m] + p.messages, p.tail + b).messages);
      }
    }
  }

  lemma HeaderKept(a: seq<Byte>, b: seq<Byte>)
    requires |a| >= P2P_HDRSZ
    ensures HeaderIn(a + b) == HeaderIn(a)
  {
    assert (a + b)[..4] == a[..4] && (a + b)[4..16] == a[4..16];
    assert (a + b)[16..20] == a[16..20] && (a + b)[20..24] == a[20..24];
  }

  // ---- The stream in pieces

  /** The part of dogecoin_node that read_cb works on, and the messages handed on so far.
      The buffer of a disconnected peer is never looked at again. */
  datatype Conversation = Conversation(connected: bool, recvBuffer: seq<Byte>, messages: seq<Message>)

  function Read(h: Handler, c: Conversation, input: seq<Byte>): Conversation {
    if !c.connected then c
    else
      var p := Parse(h, c.messages, c.recvBuffer + input);
      Conversation(p.open, if p.open then p.tail else [], c.messages + p.messages)
  }

  function ReadAll(h: Handler, c: Conversation, chunks: seq<seq<Byte>>): Conversation {
    if chunks == [] then c
    else Read(h, ReadAll(h, c, chunks[..|chunks| - 1]), chunks[|chunks| - 1])
  }

  function Flatten(chunks: seq<seq<Byte>>): seq<Byte> {
    if chunks == [] then [] else Flatten(chunks[..|chunks| - 1]) + chunks[|chunks| - 1]
  }

  const START := Conversation(true, [], [])

  /** However the stream is cut into reads, the same messages are handed on, and while the
      peer is connected the buffer is exactly the unfinished tail. */
  lemma {:induction false} ChunksDoNotMatter(h: Handler, chunks: seq<seq<Byte>>)
    ensures var c, p := ReadAll(h, START, chunks), Parse(h, [], Flatten(chunks));
      && c.messages == p.messages && c.connected == p.open
      && (p.open ==> c.recvBuffer == p.tail)
    decreases |chunks|
  {
    if chunks != [] {
      var n := |chunks| - 1;
      ChunksDoNotMatter(h, chunks[..n]);
      ParseAppend(h, [], Flatten(chunks[..n]), chunks[n]);
      assert [] + Parse(h, [], Flatten(chunks[..n])).messages == Parse(h, [], Flatten(chunks[..n])).messages;
    }
  }

  // ---- read_cb

  /** deser_bytes from a cursor into a buffer that holds enough. */
  method DeserBytes(buf: seq<Byte>, p: nat, len: nat) returns (po: seq<Byte>, p': nat)
    requires p + len <= |buf|
    ensures po == buf[p..p + len] && p' == p + len
  {
    po, p' := buf[p..p + len], p + len;
  }

  /** dogecoin_p2p_deser_msghdr. */
  method DeserMsghdr(buf: seq<Byte>, p: nat) returns (hdr: Header, p': nat)
    requires p + P2P_HDRSZ <= |buf|
    ensures hdr == HeaderIn(buf[p..]) && p' == p + P2P_HDRSZ
  {
    var netmagic, command, dataLen, hash;
    netmagic, p' := DeserBytes(buf, p, 4);
    command, p' := DeserBytes(buf, p', 12);
    dataLen, p' := DeserBytes(buf, p', 4);
    hash, p' := DeserBytes(buf, p', 4);
    hdr := Header(netmagic, command, WordAt(dataLen, 0), hash);
    assert buf[p..][..4] == netmagic && buf[p..][4..16] == command;
    assert buf[p..][16..20] == dataLen && buf[p..][20..24] == hash;
  }

  class Node {
    var connected: bool
    var recvBuffer: seq<Byte>
    /** All that has been handed on: the handler's state is a function of it. */
    var messages: seq<Message>

    ghost function Now(): Conversation
      reads this
    {
      Conversation(connected, if connected then recvBuffer else [], messages)
    }

    constructor ()
      ensures Now() == START
    {
      connected, recvBuffer, messages := true, [], [];
    }

    /** dogecoin_node_parse_message, as far as it decides about the connection. */
    method ParseMessage(h: Handler, m: Message)
      modifies this`connected, `messages
      ensures messages == old(messages) + [m] && connected == (old(connected) && h(old(messages) + [m]))
    {
      messages := messages + [m];
      connected := connected && h(messages);
    }

    /** One message of the buffer all has been handed on up to p. */
    ghost predicate Reading(h: Handler, all: seq<Byte>, before: seq<Message>, p: nat)
      reads this
    {
      && p <= |all| && recvBuffer == all
      && var whole := Parse(h, before, all);
        if connected then
          var rest := Parse(h, messages, all[p..]);
          before + whole.messages == messages + rest.messages && whole.tail == rest.tail && whole.open == rest.open
        else before + whole.messages == messages && !whole.open
    }

    /** A message that is all there is handed on, and the cursor moves behind it. */
    method HandOn(h: Handler, ghost all: seq<Byte>, ghost before: seq<Message>, p: nat, hdr: Header) returns (p': nat)
      requires Reading(h, all, before, p) && connected && |all| - p >= P2P_HDRSZ
      requires hdr == HeaderIn(all[p..]) && hdr.dataLen <= MAX_P2P_MSG_SIZE && |all| - p >= P2P_HDRSZ + hdr.dataLen
      modifies this`connected, `messages
      ensures Reading(h, all, before, p') && p' == p + P2P_HDRSZ + hdr.dataLen
    {
      hide Parse, HeaderIn, WordAt;
      ghost var s := all[p..];
      var q := p + P2P_HDRSZ;
      p' := q + hdr.dataLen;
      ParseFront(h, messages, s);
      assert s[P2P_HDRSZ..End(s)] == all[q..p'];
      assert s[End(s)..] == all[p'..];
      Associate(messages, [Front(s)], Parse(h, messages + [Front(s)], all[p'..]).messages);
      ParseMessage(h, Message(hdr, recvBuffer[q..p']));
    }

    /** read_cb. The cursor p is buf.p; readUpto is the end of the last whole message. */
    method ReadCb(h: Handler, input: seq<Byte>)
      modifies this
      ensures Now() == Read(h, old(Now()), input)
    {
      hide Parse, HeaderIn, WordAt, End;
      if !connected {
        return;
      }
      recvBuffer := recvBuffer + input;
      ghost var all, before := recvBuffer, messages;
      var p: nat, readUpto := 0, -1;
      assert all[0..] == all;
      while true
        invariant Reading(h, all, before, p) && readUpto == (if p == 0 then -1 else p)
        invariant p == 0 ==> connected
        invariant p == 0 || p < |all|
        decreases |all| - p
      {
        ParseUnfinished(h, messages, all[p..]);
        if |recvBuffer| - p < P2P_HDRSZ {
          break;
        }
        var hdr, q := DeserMsghdr(recvBuffer, p);
        EndOf(all[p..]);
        if hdr.dataLen > MAX_P2P_MSG_SIZE {
          connected := false;
          return;
        }
        if |recvBuffer| - q < hdr.dataLen {
          break;
        }
        if !connected {
          return;
        }
        p := HandOn(h, all, before, p, hdr);
        readUpto := p;
        if p == |recvBuffer| {
          assert all[p..] == [];
          ParseUnfinished(h, messages, []);
          recvBuffer := [];
          break;
        }
      }
      if readUpto != -1 && |recvBuffer| != 0 && readUpto != |recvBuffer| {
        recvBuffer := recvBuffer[readUpto..];
      }
    }
  }

  lemma EndOf(s: seq<Byte>)
    requires |s| >= P2P_HDRSZ
    ensures End(s) == P2P_HDRSZ + HeaderIn(s).dataLen
  {}

  // ---- dogecoin_p2p_message_new

  /** A command and its data, before they are framed. */
  datatype Command = Command(name: seq<Byte>, data: seq<Byte>)

  /** The source copies the name into twelve bytes, and the length of the data is 32 bits. */
  predicate Framable(c: Command) { |c.name| <= 12 && |c.data| <= 0xFFFF_FFFF }

  /** The receiver's limit on data. */
  predicate Sendable(c: Command) { |c.name| <= 12 && |c.data| <= MAX_P2P_MSG_SIZE }

  lemma SendableFrames(c: Command)
    requires Sendable(c)
    ensures Framable(c) && |c.data| <= MAX_P2P_MSG_SIZE
  {}

  type Magic = m: seq<Byte> | |m| == 4 witness [0, 0, 0, 0]

  /** What the receiver should see. */
  function AsMessage(netmagic: Magic, c: Command, hash: Hash): Message
    requires Framable(c)
  {
    Message(Header(netmagic, c.name + seq(12 - |c.name|, _ => 0), |c.data|, hash(c.data)[..4]), c.data)
  }

  function Frame(netmagic: Magic, c: Command, hash: Hash): seq<Byte>
    requires Framable(c)
  {
    netmagic + (c.name + seq(12 - |c.name|, _ => 0)) + WordBytes(|c.data|) + hash(c.data)[..4] + c.data
  }

  /** dogecoin_p2p_message_new. */
  method MessageNew(netmagic: Magic, command: seq<Byte>, data: seq<Byte>, hash: Hash) returns (s: seq<Byte>)
    requires |command| <= 12 && |data| <= 0xFFFF_FFFF
    ensures s == Frame(netmagic, Command(command, data), hash)
  {
    hide Frame, WordBytes;
    s := netmagic;
    var commandNull := new Byte[12](_ => 0);
    forall i | 0 <= i < |command| { commandNull[i] := command[i]; }
    assert commandNull[..] == command + seq(12 - |command|, _ => 0);
    s := s + commandNull[..];
    s := s + WordBytes(|data|);
    s := s + hash(data)[..4];
    if |data| > 0 {
      s := s + data;
    }
    FrameIs(netmagic, Command(command, data), hash);
  }

  lemma FrameIs(netmagic: Magic, c: Command, hash: Hash)
    requires Framable(c)
    ensures Frame(netmagic, c, hash)
         == netmagic + (c.name + seq(12 - |c.name|, _ => 0)) + WordBytes(|c.data|) + hash(c.data)[..4] + c.data
  {}

  /** A number in four bytes, the lowest first. */
  function FromBytes(b0: int, b1: int, b2: int, b3: int): int { b0 + 0x100 * b1 + 0x1_0000 * b2 + 0x100_0000 * b3 }

  /** Where everything stands in a frame. */
  predicate LaidOut(f: seq<Byte>, netmagic: Magic, c: Command, checksum: seq<Byte>) {
    && |f| == 24 + |c.data| && f[..4] == netmagic
    && (forall i :: 0 <= i < 12 ==> f[4 + i] == if i < |c.name| then c.name[i] else 0)
    && FromBytes(f[16], f[17], f[18], f[19]) == |c.data|
    && f[20..24] == checksum && f[24..] == c.data
  }

  lemma FrameBytes(netmagic: Magic, c: Command, hash: Hash)
    requires Framable(c)
    ensures LaidOut(Frame(netmagic, c, hash), netmagic, c, hash(c.data)[..4])
  {
    hide WordBytes, FromBytes, Frame;
    FrameIs(netmagic, c, hash);
    LengthBytes(|c.data|);
    PartsLaidOut(netmagic, c, WordBytes(|c.data|), hash(c.data)[..4]);
  }

  lemma PartsLaidOut(netmagic: Magic, c: Command, len: seq<Byte>, checksum: seq<Byte>)
    requires |c.name| <= 12 && |len| == |checksum| == 4
    requires FromBytes(len[0], len[1], len[2], len[3]) == |c.data|
    ensures LaidOut(netmagic + (c.name + seq(12 - |c.name|, _ => 0)) + len + checksum + c.data, netmagic, c, checksum)
  {
    hide FromBytes;
    var name := c.name + seq(12 - |c.name|, _ => 0);
    var f := netmagic + name + len + checksum + c.data;
    assert f == netmagic + name + (len + checksum + c.data);
    NameAt(f, netmagic, name, len + checksum + c.data);
    assert f[16] == len[0] && f[17] == len[1] && f[18] == len[2] && f[19] == len[3];
  }

  lemma NameAt(f: seq<Byte>, netmagic: Magic, name: seq<Byte>, rest: seq<Byte>)
    requires |name| == 12 && f == netmagic + name + rest
    ensures forall i :: 0 <= i < 12 ==> f[4 + i] == name[i]
  {}

  lemma LengthBytes(w: Word)
    ensures var b := WordBytes(w); FromBytes(b[0], b[1], b[2], b[3]) == w
  {
    WordDigits(w);
  }

  /** Where deser_msghdr finds the four fields. */
  lemma HeaderBytes(s: seq<Byte>)
    requires |s| >= 24
    ensures HeaderIn(s) == Header(s[..4], s[4..16], FromBytes(s[16], s[17], s[18], s[19]), s[20..24])
  {}

  function Stream(netmagic: Magic, cs: seq<Command>, hash: Hash): seq<Byte>
    requires forall c | c in cs :: Sendable(c)
  {
    hide Sendable, Framable;
    if cs == [] then []
    else
      SendableFrames(cs[0]);
      Frame(netmagic, cs[0], hash) + Stream(netmagic, cs[1..], hash)
  }

  function AsMessages(netmagic: Magic, cs: seq<Command>, hash: Hash): (ms: seq<Message>)
    requires forall c | c in cs :: Sendable(c)
    ensures |ms| == |cs|
  {
    hide Sendable, Framable;
    if cs == [] then []
    else
      SendableFrames(cs[0]);
      [AsMessage(netmagic, cs[0], hash)] + AsMessages(netmagic, cs[1..], hash)
  }

  lemma FrameHeader(netmagic: Magic, c: Command, hash: Hash, rest: seq<Byte>)
    requires Framable(c)
    ensures var s := Frame(netmagic, c, hash) + rest;
      && |s| >= P2P_HDRSZ && HeaderIn(s) == AsMessage(netmagic, c, hash).hdr
      && End(s) == P2P_HDRSZ + |c.data| <= |s|
      && s[P2P_HDRSZ..End(s)] == c.data && s[End(s)..] == rest
  {
    hide WordAt, WordBytes;
    var s := Frame(netmagic, c, hash) + rest;
    var name := c.name + seq(12 - |c.name|, _ => 0);
    var len := WordBytes(|c.data|);
    WordRoundTrip(|c.data|, [], []);
    assert [] + len + [] == len;
    assert s[..4] == netmagic;
    assert s[4..16] == name;
    assert s[16..20] == len;
    assert s[20..24] == hash(c.data)[..4];
  }

  /** A frame whose data exceed the receiver's limit ends the connection, with nothing taken. */
  lemma TooLarge(h: Handler, past: seq<Message>, netmagic: Magic, c: Command, hash: Hash, rest: seq<Byte>)
    requires Framable(c) && |c.data| > 4_000_000
    ensures var s := Frame(netmagic, c, hash) + rest; Parse(h, past, s) == Parsed([], s, false)
  {
    hide Parse, Frame, HeaderIn, End;
    FrameHeader(netmagic, c, hash, rest);
    ParseUnfinished(h, past, Frame(netmagic, c, hash) + rest);
  }

  lemma StreamFront(netmagic: Magic, cs: seq<Command>, hash: Hash)
    requires forall c | c in cs :: Sendable(c)
    ensures cs == [] ==> Stream(netmagic, cs, hash) == [] && AsMessages(netmagic, cs, hash) == []
    ensures cs != [] ==>
      && Framable(cs[0]) && |cs[0].data| <= MAX_P2P_MSG_SIZE && (forall c | c in cs[1..] :: Sendable(c))
      && Stream(netmagic, cs, hash) == Frame(netmagic, cs[0], hash) + Stream(netmagic, cs[1..], hash)
      && AsMessages(netmagic, cs, hash) == [AsMessage(netmagic, cs[0], hash)] + AsMessages(netmagic, cs[1..], hash)
  {
    hide Sendable, Framable, Frame, AsMessage;
    if cs != [] {
      SendableFrames(cs[0]);
    }
  }

  /** One frame at the front. */
  lemma FrameParsed(h: Handler, past: seq<Message>, netmagic: Magic, c: Command, hash: Hash, rest: seq<Byte>)
    requires Framable(c) && |c.data| <= 4_000_000 && h(past + [AsMessage(netmagic, c, hash)])
    ensures var m := AsMessage(netmagic, c, hash);
      var r := Parse(h, past + [m], rest);
      Parse(h, past, Frame(netmagic, c, hash) + rest) == Parsed([m] + r.messages, r.tail, r.open)
  {
    hide Parse, Frame, HeaderIn, WordAt, End, Framable;
    FrameHeader(netmagic, c, hash, rest);
    ParseFront(h, past, Frame(netmagic, c, hash) + rest);
  }

  /** Frames one behind another come back as the commands they were made from, if the
      handler stays connected behind each of them. */
  lemma {:induction false} StreamRoundTrip(h: Handler, past: seq<Message>, netmagic: Magic, cs: seq<Command>,
          hash: Hash)
    requires forall c | c in cs :: Sendable(c)
    requires forall n :: 0 < n <= |cs| ==> h(past + AsMessages(netmagic, cs, hash)[..n])
    ensures Parse(h, past, Stream(netmagic, cs, hash)) == Parsed(AsMessages(netmagic, cs, hash), [], true)
    decreases |cs|
  {
    hide Parse, Frame, Stream, AsMessage, AsMessages, Sendable, Framable;
    StreamFront(netmagic, cs, hash);
    if cs == [] {
      ParseUnfinished(h, past, []);
    } else {
      var m, ms, all := AsMessage(netmagic, cs[0], hash), AsMessages(netmagic, cs[1..], hash),
        AsMessages(netmagic, cs, hash);
      assert past + all[..1] == past + [m];
      FrameParsed(h, past, netmagic, cs[0], hash, Stream(netmagic, cs[1..], hash));
      forall n | 0 < n <= |ms| ensures h(past + [m] + ms[..n]) {
        assert past + all[..n + 1] == past + [m] + ms[..n];
      }
      StreamRoundTrip(h, past + [m], netmagic, cs[1..], hash);
    }
  }

}
