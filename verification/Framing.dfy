/**
 Message framing on a peer connection: the outgoing queue that a socket drains
 in arbitrary pieces, and the incremental parser that is fed arbitrary chunks.
 */
module Framing {
  import opened ByteStrings
  import opened Options

  const HEADER_SIZE: nat := 24
  const MESSAGE_SIZE_OFFSET: nat := 16
  const CHECKSUM_OFFSET: nat := 20

  // A 32-bit number is read back as written, least significant byte first.
  lemma SizeField(n: nat)
    requires n < 0x1_0000_0000
    ensures Number(LittleEndian(n, 4)) == n
    ensures var b: seq<nat> := LittleEndian(n, 4); n == b[0] + 0x100 * b[1] + 0x10000 * b[2] + 0x1000000 * b[3]
  {
    FitsWidth(n, 4);
    NumberBack(n, 4);
    FourBytes(LittleEndian(n, 4));
  }

  lemma FourBytes(b: Bytes)
    requires |b| == 4
    ensures var d: seq<nat> := b; Number(b) == d[0] + 0x100 * d[1] + 0x10000 * d[2] + 0x1000000 * d[3]
  {
    assert b[1..][1..] == b[2..] && b[2..][1..] == b[3..] && b[3..][1..] == [];
    assert Number(b[3..]) == b[3] as nat;
    assert Number(b[2..]) == b[2] as nat + 256 * Number(b[3..]);
    assert Number(b[1..]) == b[1] as nat + 256 * Number(b[2..]);
  }

  // A message as pushed: the start bytes and the command, which make up the first part of the header, and the payload.
  datatype Message = Message(head: Bytes, payload: Bytes)

  // The frame that goes over the wire, for some checksum function.
  function Frame(m: Message, checksum: Bytes -> Bytes): Bytes {
    m.head + LittleEndian(|m.payload|, 4) + checksum(m.payload) + m.payload
  }

  // A message whose size fits the field of the header.
  ghost predicate Framed(m: Message, checksum: Bytes -> Bytes) {
    |m.head| == MESSAGE_SIZE_OFFSET && |m.payload| < 0x1_0000_0000 && |checksum(m.payload)| == 4
  }

  ghost predicate Sendable(m: Message, checksum: Bytes -> Bytes) {
    Framed(m, checksum) && |m.payload| <= MAX_SIZE
  }

  ghost function Flatten(frames: seq<Bytes>): Bytes {
    if frames == [] then [] else frames[0] + Flatten(frames[1..])
  }

  ghost function TotalSize(frames: seq<Bytes>): nat {
    if frames == [] then 0 else |frames[0]| + TotalSize(frames[1..])
  }

  lemma {:induction false} FlattenAppend(frames: seq<Bytes>, f: Bytes)
    ensures Flatten(frames + [f]) == Flatten(frames) + f
    ensures TotalSize(frames + [f]) == TotalSize(frames) + |f|
  {
    if frames == [] {
      assert [] + [f] == [f] && [f][1..] == [];
    } else {
      FlattenAppend(frames[1..], f);
      assert (frames + [f])[1..] == frames[1..] + [f];
    }
  }

  // ---------- sending ----------

  class SendQueue {
    const checksum: Bytes -> Bytes
    // The message under construction, the queue, its size in bytes and how much of its head has gone out.
    var ssSend: Bytes
    var vSendMsg: seq<Bytes>
    var nSendSize: nat
    var nSendOffset: nat
    var nSendBytes: nat
    // Everything handed to the socket, and every frame ever queued.
    ghost var sent: Bytes
    ghost var queued: seq<Bytes>

    ghost predicate Valid()
      reads this
    {
      Waiting(vSendMsg)
    }

    // `rest` is the part of the queue that has not gone out: the first frame perhaps in part, the others not at all.
    ghost predicate Waiting(rest: seq<Bytes>)
      reads this
    {
      && Started(rest, nSendOffset)
      && nSendSize == TotalSize(rest)
      && nSendBytes == |sent|
      && Streaming(rest, nSendOffset, sent, queued)
    }

    constructor (sum: Bytes -> Bytes)
      ensures Valid() && checksum == sum && ssSend == [] && queued == [] && sent == []
    {
      checksum := sum;
      ssSend, vSendMsg, nSendSize, nSendOffset, nSendBytes, sent, queued := [], [], 0, 0, 0, [], [];
    }

    // Start a message: size and checksum are filled in at its end.
    method BeginMessage(head: Bytes)
      requires Valid() && ssSend == [] && |head| == MESSAGE_SIZE_OFFSET
      modifies this`ssSend
      ensures Valid() && ssSend == head + [0, 0, 0, 0] + [0, 0, 0, 0]
    {
      ssSend := head + [0, 0, 0, 0] + [0, 0, 0, 0];
    }

    // `ssSend << ...`
    method Write(data: Bytes)
      requires Valid()
      modifies this`ssSend
      ensures Valid() && ssSend == old(ssSend) + data
    {
      ssSend := ssSend + data;
    }

    // Patch the header, queue the frame, and try to send at once when nothing else is waiting.
    method EndMessage(limit: nat -> nat)
      requires Valid() && (ssSend == [] || |ssSend| >= HEADER_SIZE)
      requires ssSend != [] ==> |checksum(ssSend[HEADER_SIZE..])| == 4
      modifies this
      ensures Valid() && ssSend == [] && old(sent) <= sent && (old(vSendMsg) != [] ==> sent == old(sent))
      ensures queued == if old(ssSend) == [] then old(queued)
                        else old(queued) + [Frame(Message(old(ssSend)[..MESSAGE_SIZE_OFFSET],
                                                          old(ssSend)[HEADER_SIZE..]), checksum)]
      ensures old(ssSend) != [] ==>
                var frame := queued[|queued| - 1];
                if old(vSendMsg) != [] then vSendMsg == old(vSendMsg) + [frame] && nSendOffset == old(nSendOffset)
                else if |frame| <= limit(0) then vSendMsg == [] && nSendOffset == 0
                else vSendMsg == [frame] && nSendOffset == limit(0)
    {
      hide Flatten, TotalSize, Streaming;
      if ssSend == [] {
        return;
      }
      var payload := ssSend[HEADER_SIZE..];
      ssSend := ssSend[..MESSAGE_SIZE_OFFSET] + LittleEndian(|ssSend| - HEADER_SIZE, 4) + ssSend[CHECKSUM_OFFSET..];
      ssSend := ssSend[..CHECKSUM_OFFSET] + checksum(payload) + ssSend[HEADER_SIZE..];
      assert ssSend == Frame(Message(old(ssSend)[..MESSAGE_SIZE_OFFSET], payload), checksum);
      var first := vSendMsg == [];
      Queue(ssSend);
      ssSend := [];
      if first {
        SocketSendData(limit);
      }
    }

    method Queue(frame: Bytes)
      requires Valid() && |frame| > 0
      modifies this`vSendMsg, this`nSendSize, this`queued
      ensures Valid() && queued == old(queued) + [frame] && vSendMsg == old(vSendMsg) + [frame]
    {
      hide Flatten, TotalSize, Streaming;
      QueueStreams(vSendMsg, nSendOffset, sent, queued, frame);
      vSendMsg := vSendMsg + [frame];
      nSendSize := nSendSize + |frame|;
      queued := queued + [frame];
    }

    // How many bytes of frame k of the queue are still to go out.
    static ghost function Left(frames: seq<Bytes>, offset: nat, k: nat): int
      requires k < |frames|
    {
      |frames[k]| - if k == 0 then offset else 0
    }

    // Hand queued data to the socket. Its k-th call takes at most `limit(k)` bytes; 0 stands for none and for an error.
    // Whole frames go out until one does not fit.
    method SocketSendData(limit: nat -> nat)
      requires Valid()
      modifies this`vSendMsg, this`nSendSize, this`nSendOffset, this`nSendBytes, this`sent
      ensures Valid() && old(sent) <= sent
      ensures |vSendMsg| <= |old(vSendMsg)| && vSendMsg == old(vSendMsg)[|old(vSendMsg)| - |vSendMsg|..]
      ensures var popped := |old(vSendMsg)| - |vSendMsg|;
              && (forall k | 0 <= k < popped :: Left(old(vSendMsg), old(nSendOffset), k) <= limit(k))
              && (vSendMsg != [] ==> Left(old(vSendMsg), old(nSendOffset), popped) > limit(popped))
              && (vSendMsg != [] ==> nSendOffset == (if popped == 0 then old(nSendOffset) else 0) + limit(popped))
    {
      hide Flatten, TotalSize, Streaming;
      var it := 0;
      while it < |vSendMsg|
        invariant 0 <= it <= |vSendMsg| && vSendMsg == old(vSendMsg) && old(sent) <= sent
        invariant Waiting(vSendMsg[it..])
        invariant nSendOffset == if it == 0 then old(nSendOffset) else 0
        invariant forall k | 0 <= k < it :: Left(vSendMsg, old(nSendOffset), k) <= limit(k)
      {
        var data := vSendMsg[it];
        assert vSendMsg[it..][0] == data && vSendMsg[it..][1..] == vSendMsg[it + 1..];
        assert |data| > nSendOffset;
        var nBytes := if limit(it) <= |data| - nSendOffset then limit(it) else |data| - nSendOffset;
        if nBytes == 0 {
          break;
        }
        Advance(vSendMsg[it..], nBytes);
        if nSendOffset == |data| {
          FrontSent(vSendMsg[it..], sent, queued);
          nSendOffset := 0;
          nSendSize := nSendSize - |data|;
          it := it + 1;
        } else {
          break;
        }
      }
      vSendMsg := vSendMsg[it..];
    }

    // Some bytes of the first waiting frame go out.
    method Advance(rest: seq<Bytes>, nBytes: nat)
      requires Waiting(rest) && rest != [] && nSendOffset + nBytes <= |rest[0]|
      modifies this`sent, this`nSendOffset, this`nSendBytes
      ensures nSendBytes == |sent| && Streaming(rest, nSendOffset, sent, queued)
      ensures nSendOffset == old(nSendOffset) + nBytes && old(sent) <= sent
    {
      ghost var all := Flatten(rest);
      ghost var piece := rest[0][nSendOffset..nSendOffset + nBytes];
      assert all[nSendOffset..] == piece + all[nSendOffset + nBytes..];
      sent := sent + piece;
      nSendBytes := nSendBytes + nBytes;
      nSendOffset := nSendOffset + nBytes;
    }
  }

  ghost predicate Started(rest: seq<Bytes>, offset: nat) {
    && (forall f | f in rest :: |f| > 0)
    && (if rest == [] then offset == 0 else offset < |rest[0]|)
  }

  // What has gone out followed by what is waiting is all that was ever queued.
  ghost predicate Streaming(rest: seq<Bytes>, offset: nat, sent: Bytes, queued: seq<Bytes>) {
    offset <= |Flatten(rest)| && sent + Flatten(rest)[offset..] == Flatten(queued)
  }

  lemma FrontSent(rest: seq<Bytes>, sent: Bytes, queued: seq<Bytes>)
    requires rest != [] && Streaming(rest, |rest[0]|, sent, queued)
    ensures Streaming(rest[1..], 0, sent, queued) && TotalSize(rest) == |rest[0]| + TotalSize(rest[1..])
  {
    assert Flatten(rest)[|rest[0]|..] == Flatten(rest[1..]) == Flatten(rest[1..])[0..];
  }

  lemma QueueStreams(rest: seq<Bytes>, offset: nat, sent: Bytes, queued: seq<Bytes>, f: Bytes)
    requires Streaming(rest, offset, sent, queued)
    ensures Streaming(rest + [f], offset, sent, queued + [f]) && TotalSize(rest + [f]) == TotalSize(rest) + |f|
  {
    FlattenAppend(rest, f);
    FlattenAppend(queued, f);
    assert (Flatten(rest) + f)[offset..] == Flatten(rest)[offset..] + f;
    assert sent + (Flatten(rest)[offset..] + f) == sent + Flatten(rest)[offset..] + f;
  }

  // ---------- receiving ----------

  // A message being received: the header bytes so far, the size they announce once they are
  // complete, and the data bytes so far.
  datatype NetMessage = NetMessage(inData: bool, header: Bytes, nMessageSize: nat, data: Bytes)
  {
    predicate Complete() {
      inData && nMessageSize == |data|
    }

    ghost predicate WellFormed() {
      if inData then |header| == HEADER_SIZE && |data| <= nMessageSize else |header| < HEADER_SIZE && data == []
    }
  }

  const FRESH := NetMessage(false, [], 0, [])

  function Announced(header: Bytes): nat
    requires |header| == HEADER_SIZE
  {
    Number(header[MESSAGE_SIZE_OFFSET..CHECKSUM_OFFSET])
  }

  // Only the last message may be incomplete.
  ghost predicate Received(msgs: seq<NetMessage>) {
    && (forall i | 0 <= i < |msgs| :: msgs[i].WellFormed())
    && (forall i | 0 <= i < |msgs| - 1 :: msgs[i].Complete())
  }

  // Make room for the next byte.
  function Opened(msgs: seq<NetMessage>): (r: seq<NetMessage>)
    ensures |r| > 0
  {
    if msgs == [] || msgs[|msgs| - 1].Complete() then msgs + [FRESH] else msgs
  }

  // The reference parser takes one byte at a time; it gives up on a message that is too large.
  function Take(m: NetMessage, b: Byte): Option<NetMessage> {
    if m.inData then Some(m.(data := m.data + [b]))
    else if |m.header| + 1 != HEADER_SIZE then Some(m.(header := m.header + [b]))
    else if Announced(m.header + [b]) > MAX_SIZE then None
    else Some(NetMessage(true, m.header + [b], Announced(m.header + [b]), []))
  }

  function Feed(msgs: seq<NetMessage>, bytes: Bytes): Option<seq<NetMessage>>
    decreases |bytes|
  {
    if bytes == [] then Some(msgs)
    else
      var open := Opened(msgs);
      var next := Take(open[|open| - 1], bytes[0]);
      if next.None? then None else Feed(open[|open| - 1 := next.value], bytes[1..])
  }

  // Feeding in two pieces is feeding at once: chunk boundaries do not matter.
  lemma {:induction false} FeedConcat(msgs: seq<NetMessage>, a: Bytes, b: Bytes)
    ensures Feed(msgs, a + b) == var s := Feed(msgs, a); if s.None? then None else Feed(s.value, b)
    decreases |a|
  {
    if a == [] {
      assert a + b == b;
    } else {
      assert (a + b)[0] == a[0] && (a + b)[1..] == a[1..] + b;
      var open := Opened(msgs);
      var next := Take(open[|open| - 1], a[0]);
      if next.Some? {
        FeedConcat(open[|open| - 1 := next.value], a[1..], b);
      }
    }
  }

  // Several bytes of a message that has room for all of them.
  function TakeAll(m: NetMessage, bytes: Bytes): Option<NetMessage>
    decreases |bytes|
  {
    if bytes == [] then Some(m)
    else
      var next := Take(m, bytes[0]);
      if next.None? then None else TakeAll(next.value, bytes[1..])
  }

  lemma {:induction false} FeedWithin(msgs: seq<NetMessage>, m: NetMessage, bytes: Bytes)
    requires m.WellFormed() && !m.Complete()
    requires |bytes| <= if m.inData then m.nMessageSize - |m.data| else HEADER_SIZE - |m.header|
    ensures Feed(msgs + [m], bytes) == var r := TakeAll(m, bytes); if r.None? then None else Some(msgs + [r.value])
    decreases |bytes|
  {
    if bytes != [] {
      assert Opened(msgs + [m]) == msgs + [m] && (msgs + [m])[|msgs|] == m;
      var next := Take(m, bytes[0]);
      if next.Some? {
        assert (msgs + [m])[|msgs| := next.value] == msgs + [next.value];
        if |bytes| > 1 {
          FeedWithin(msgs, next.value, bytes[1..]);
        }
      }
    }
  }

  lemma {:induction false} TakeData(m: NetMessage, bytes: Bytes)
    requires m.inData
    ensures TakeAll(m, bytes) == Some(m.(data := m.data + bytes))
    decreases |bytes|
  {
    if bytes == [] {
      assert m.data + [] == m.data;
    } else {
      TakeData(m.(data := m.data + [bytes[0]]), bytes[1..]);
      assert m.data + [bytes[0]] + bytes[1..] == m.data + bytes;
    }
  }

  lemma {:induction false} TakeHeader(m: NetMessage, bytes: Bytes)
    requires !m.inData && m.data == [] && |m.header| < HEADER_SIZE && |m.header| + |bytes| <= HEADER_SIZE
    ensures var h := m.header + bytes;
            TakeAll(m, bytes) == if |h| < HEADER_SIZE then Some(m.(header := h))
                                 else if Announced(h) > MAX_SIZE then None
                                 else Some(NetMessage(true, h, Announced(h), []))
    decreases |bytes|
  {
    if bytes == [] {
      assert m.header + [] == m.header;
    } else {
      assert m.header + [bytes[0]] + bytes[1..] == m.header + bytes;
      if |bytes| == 1 {
        assert bytes == [bytes[0]] && bytes[1..] == [];
      } else {
        TakeHeader(m.(header := m.header + [bytes[0]]), bytes[1..]);
      }
    }
  }

  class RecvQueue {
    var vRecvMsg: seq<NetMessage>

    ghost predicate Valid()
      reads this
    {
      Received(vRecvMsg)
    }

    constructor ()
      ensures Valid() && vRecvMsg == []
    {
      vRecvMsg := [];
    }

    // Absorb header bytes; a negative result is an error.
    static method ReadHeader(m: NetMessage, pch: Bytes) returns (r: NetMessage, handled: int)
      requires m.WellFormed() && !m.inData && pch != []
      ensures handled <= |pch|
      ensures handled < 0 ==> exists n ::
                0 < n <= |pch| && n <= HEADER_SIZE - |m.header|
                && TakeAll(m, pch[..n]) == None
      ensures handled >= 0 ==>
                0 < handled <= HEADER_SIZE - |m.header| && r.WellFormed()
                && TakeAll(m, pch[..handled]) == Some(r)
    {
      var nRemaining := HEADER_SIZE - |m.header|;
      var nCopy := if nRemaining <= |pch| then nRemaining else |pch|;
      TakeHeader(m, pch[..nCopy]);
      var header := m.header + pch[..nCopy];
      if |header| < HEADER_SIZE {
        return m.(header := header), nCopy;
      }
      if Announced(header) > MAX_SIZE {
        return m, -1;
      }
      return NetMessage(true, header, Announced(header), []), nCopy;
    }

    static method ReadData(m: NetMessage, pch: Bytes) returns (r: NetMessage, handled: int)
      requires m.WellFormed() && m.inData && !m.Complete() && pch != []
      ensures 0 < handled <= |pch| && handled <= m.nMessageSize - |m.data| && r.WellFormed()
              && TakeAll(m, pch[..handled]) == Some(r)
    {
      var nRemaining := m.nMessageSize - |m.data|;
      var nCopy := if nRemaining <= |pch| then nRemaining else |pch|;
      TakeData(m, pch[..nCopy]);
      return m.(data := m.data + pch[..nCopy]), nCopy;
    }

    // Parse a chunk: the result is that of the reference parser, whatever the chunk boundaries are.
    method ReceiveMsgBytes(pch: Bytes) returns (ok: bool)
      requires Valid()
      modifies this
      ensures ok ==> Valid() && Feed(old(vRecvMsg), pch) == Some(vRecvMsg)
      ensures !ok ==> Feed(old(vRecvMsg), pch) == None
    {
      hide Feed, TakeAll, Take, Announced;
      var rest := pch;
      assert pch[|pch| - |rest|..] == rest;
      while rest != []
        invariant Valid() && |rest| <= |pch| && pch[|pch| - |rest|..] == rest
        invariant Feed(old(vRecvMsg), pch) == Feed(vRecvMsg, rest)
        decreases |rest|
      {
        FeedOpened(vRecvMsg, rest);
        vRecvMsg := Opened(vRecvMsg);
        var last := |vRecvMsg| - 1;
        var msg := vRecvMsg[last];
        ghost var front := vRecvMsg[..last];
        assert vRecvMsg == front + [msg];
        var handled;
        var m;
        if !msg.inData {
          m, handled := ReadHeader(msg, rest);
        } else {
          m, handled := ReadData(msg, rest);
        }
        if handled < 0 {
          ghost var n :| 0 < n <= |rest| && n <= HEADER_SIZE - |msg.header| && TakeAll(msg, rest[..n]) == None;
          FeedWithin(front, msg, rest[..n]);
          FeedSplit(front + [msg], rest, n);
          return false;
        }
        FeedWithin(front, msg, rest[..handled]);
        FeedSplit(front + [msg], rest, handled);
        vRecvMsg := vRecvMsg[last := m];
        assert vRecvMsg == front + [m];
        rest := rest[handled..];
      }
      FeedNothing(vRecvMsg);
      return true;
    }
  }

  lemma FeedOpened(msgs: seq<NetMessage>, bytes: Bytes)
    requires Received(msgs) && bytes != []
    ensures Feed(Opened(msgs), bytes) == Feed(msgs, bytes) && Received(Opened(msgs))
    ensures !Opened(msgs)[|Opened(msgs)| - 1].Complete()
  {
  }

  lemma FeedSplit(msgs: seq<NetMessage>, bytes: Bytes, n: nat)
    requires n <= |bytes|
    ensures Feed(msgs, bytes) == var s := Feed(msgs, bytes[..n]); if s.None? then None else Feed(s.value, bytes[n..])
  {
    FeedConcat(msgs, bytes[..n], bytes[n..]);
    assert bytes[..n] + bytes[n..] == bytes;
  }

  lemma FeedNothing(msgs: seq<NetMessage>)
    ensures Feed(msgs, []) == Some(msgs)
  {
  }

  // ---------- end to end ----------

  // A whole frame as it is received.
  ghost function Delivered(m: Message, checksum: Bytes -> Bytes): NetMessage {
    NetMessage(true, Frame(m, checksum)[..|Frame(m, checksum)| - |m.payload|], |m.payload|, m.payload)
  }

  ghost function Completed(msgs: seq<NetMessage>): seq<NetMessage> {
    if msgs != [] && !msgs[|msgs| - 1].Complete() then msgs[..|msgs| - 1] else msgs
  }

  ghost predicate AllComplete(msgs: seq<NetMessage>) {
    forall i | 0 <= i < |msgs| :: msgs[i].Complete()
  }

  lemma HeaderAnnounces(m: Message, checksum: Bytes -> Bytes)
    requires Framed(m, checksum)
    ensures var f := Frame(m, checksum);
            |f| == HEADER_SIZE + |m.payload| && f[HEADER_SIZE..] == m.payload
              && Announced(f[..HEADER_SIZE]) == |m.payload|
  {
    var f := Frame(m, checksum);
    SizeField(|m.payload|);
    assert f[..HEADER_SIZE][MESSAGE_SIZE_OFFSET..CHECKSUM_OFFSET] == LittleEndian(|m.payload|, 4);
  }

  // The header bytes of a frame, or the first of them.
  lemma FeedHeader(msgs: seq<NetMessage>, header: Bytes, n: nat)
    requires AllComplete(msgs) && |header| == HEADER_SIZE && 0 < n <= HEADER_SIZE
    ensures Feed(msgs, header[..n])
         == if n < HEADER_SIZE then Some(msgs + [NetMessage(false, header[..n], 0, [])])
            else if Announced(header) > MAX_SIZE then None
            else Some(msgs + [NetMessage(true, header, Announced(header), [])])
  {
    hide TakeAll, Take, Announced;
    assert Feed(msgs, header[..n]) == Feed(msgs + [FRESH], header[..n]) by {
      assert Opened(msgs) == msgs + [FRESH] == Opened(msgs + [FRESH]);
    }
    FeedWithin(msgs, FRESH, header[..n]);
    TakeHeader(FRESH, header[..n]);
    assert [] + header[..n] == header[..n];
    assert header[..HEADER_SIZE] == header;
  }

  // A frame that arrives in part leaves one incomplete message; a whole one leaves the message.
  lemma FeedFrame(msgs: seq<NetMessage>, m: Message, checksum: Bytes -> Bytes, n: nat)
    requires AllComplete(msgs) && Sendable(m, checksum) && 0 < n <= |Frame(m, checksum)|
    ensures var f := Frame(m, checksum);
            var r := Feed(msgs, f[..n]);
            if n == |f| then r == Some(msgs + [Delivered(m, checksum)])
            else r.Some? && |r.value| == |msgs| + 1 && r.value[..|msgs|] == msgs && !r.value[|msgs|].Complete()
  {
    HeaderAnnounces(m, checksum);
    hide TakeAll, Take, Announced, Feed, Frame;
    var f := Frame(m, checksum);
    var header := f[..HEADER_SIZE];
    if n < HEADER_SIZE {
      FeedHeader(msgs, header, n);
      assert f[..n] == header[..n];
    } else {
      FeedHeader(msgs, header, HEADER_SIZE);
      var part := m.payload[..n - HEADER_SIZE];
      assert header[..HEADER_SIZE] == header && f[..n][..HEADER_SIZE] == header;
      assert f[..n][HEADER_SIZE..] == part;
      FeedSplit(msgs, f[..n], HEADER_SIZE);
      FeedPayload(msgs, NetMessage(true, header, |m.payload|, []), part);
      assert n == |f| ==> part == m.payload;
    }
  }

  // A frame whose payload is too large is refused, in any state of the receiver that awaits a message.
  lemma OversizeRefused(msgs: seq<NetMessage>, m: Message, checksum: Bytes -> Bytes)
    requires AllComplete(msgs) && Framed(m, checksum)
    ensures Feed(msgs, Frame(m, checksum)).None? <==> |m.payload| > MAX_SIZE
  {
    hide Frame, Feed, Announced;
    HeaderAnnounces(m, checksum);
    var f := Frame(m, checksum);
    if |m.payload| <= MAX_SIZE {
      assert f[..|f|] == f;
      FeedFrame(msgs, m, checksum, |f|);
    } else {
      assert f[..HEADER_SIZE][..HEADER_SIZE] == f[..HEADER_SIZE];
      FeedHeader(msgs, f[..HEADER_SIZE], HEADER_SIZE);
      FeedSplit(msgs, f, HEADER_SIZE);
    }
  }

  lemma FeedPayload(msgs: seq<NetMessage>, open: NetMessage, part: Bytes)
    requires open.WellFormed() && open.inData && open.data == [] && |part| <= open.nMessageSize
    ensures Feed(msgs + [open], part) == Some(msgs + [open.(data := part)])
  {
    hide TakeAll, Take, Feed;
    assert [] + part == part;
    if part == [] {
      FeedNothing(msgs + [open]);
    } else {
      FeedWithin(msgs, open, part);
      TakeData(open, part);
    }
  }

  ghost function Frames(ms: seq<Message>, checksum: Bytes -> Bytes): seq<Bytes> {
    seq(|ms|, i requires 0 <= i < |ms| => Frame(ms[i], checksum))
  }

  ghost function DeliveredAll(ms: seq<Message>, checksum: Bytes -> Bytes): seq<NetMessage> {
    seq(|ms|, i requires 0 <= i < |ms| => Delivered(ms[i], checksum))
  }

  // Any prefix of the stream of frames parses without error into a prefix of the messages.
  lemma {:induction false} FeedStream(done: seq<NetMessage>, ms: seq<Message>, checksum: Bytes -> Bytes, bytes: Bytes)
    requires AllComplete(done) && forall m | m in ms :: Sendable(m, checksum)
    requires bytes <= Flatten(Frames(ms, checksum))
    ensures Feed(done, bytes).Some? && Completed(Feed(done, bytes).value) <= done + DeliveredAll(ms, checksum)
    ensures bytes == Flatten(Frames(ms, checksum)) ==> Feed(done, bytes).value == done + DeliveredAll(ms, checksum)
    decreases |ms|
  {
    hide Frame, Feed, Frames, DeliveredAll, Delivered, Flatten;
    if ms == [] {
      NoFrames(checksum);
    }
    if bytes == [] {
      FeedNothing(done);
      assert Completed(done) == done;
      if ms != [] {
        FirstFrame(ms, checksum);
      }
    } else {
      FirstFrame(ms, checksum);
      var f := Frame(ms[0], checksum);
      if |bytes| < |f| {
        assert bytes == f[..|bytes|];
        FeedFrame(done, ms[0], checksum, |bytes|);
        var r := Feed(done, bytes).value;
        assert Completed(r) == r[..|done|] == done;
      } else {
        assert bytes[..|f|] == f && f == f[..|f|];
        FeedFrame(done, ms[0], checksum, |f|);
        FeedSplit(done, bytes, |f|);
        var next := done + [Delivered(ms[0], checksum)];
        WholeMessage(ms[0], checksum);
        assert bytes[|f|..] <= Flatten(Frames(ms[1..], checksum));
        FeedStream(next, ms[1..], checksum, bytes[|f|..]);
        assert next + DeliveredAll(ms[1..], checksum) == done + DeliveredAll(ms, checksum);
      }
    }
  }

  lemma NoFrames(checksum: Bytes -> Bytes)
    ensures Flatten(Frames([], checksum)) == [] && DeliveredAll([], checksum) == []
  {
  }

  lemma WholeMessage(m: Message, checksum: Bytes -> Bytes)
    requires Sendable(m, checksum)
    ensures Delivered(m, checksum).Complete()
  {
    HeaderAnnounces(m, checksum);
  }

  lemma FirstFrame(ms: seq<Message>, checksum: Bytes -> Bytes)
    requires ms != [] && forall m | m in ms :: Sendable(m, checksum)
    ensures |Frame(ms[0], checksum)| >= HEADER_SIZE
    ensures Flatten(Frames(ms, checksum)) == Frame(ms[0], checksum) + Flatten(Frames(ms[1..], checksum))
    ensures DeliveredAll(ms, checksum) == [Delivered(ms[0], checksum)] + DeliveredAll(ms[1..], checksum)
  {
    assert Sendable(ms[0], checksum);
    HeaderAnnounces(ms[0], checksum);
    hide Frame, Delivered, Sendable;
    assert Frames(ms, checksum)[1..] == Frames(ms[1..], checksum);
  }

  // Feeding chunk after chunk.
  ghost function FeedChunks(msgs: seq<NetMessage>, chunks: seq<Bytes>): Option<seq<NetMessage>>
    decreases |chunks|
  {
    if chunks == [] then Some(msgs)
    else
      var s := Feed(msgs, chunks[0]);
      if s.None? then None else FeedChunks(s.value, chunks[1..])
  }

  lemma {:induction false} ChunksDoNotMatter(msgs: seq<NetMessage>, chunks: seq<Bytes>)
    ensures FeedChunks(msgs, chunks) == Feed(msgs, Flatten(chunks))
    decreases |chunks|
  {
    if chunks != [] {
      FeedConcat(msgs, chunks[0], Flatten(chunks[1..]));
      var s := Feed(msgs, chunks[0]);
      if s.Some? {
        ChunksDoNotMatter(s.value, chunks[1..]);
      }
    }
  }

  // Whatever was pushed, however much of it the socket took, and however it arrives: what the receiver
  // completes are the first of the pushed messages, in order and unaltered.
  lemma Delivery(ms: seq<Message>, checksum: Bytes -> Bytes, sent: Bytes, chunks: seq<Bytes>)
    requires forall m | m in ms :: Sendable(m, checksum)
    requires sent <= Flatten(Frames(ms, checksum)) && Flatten(chunks) <= sent
    ensures FeedChunks([], chunks).Some? && Completed(FeedChunks([], chunks).value) <= DeliveredAll(ms, checksum)
    ensures Flatten(chunks) == Flatten(Frames(ms, checksum)) ==>
            FeedChunks([], chunks).value == DeliveredAll(ms, checksum)
  {
    ChunksDoNotMatter([], chunks);
    FeedStream([], ms, checksum, Flatten(chunks));
    assert [] + DeliveredAll(ms, checksum) == DeliveredAll(ms, checksum);
  }
}
