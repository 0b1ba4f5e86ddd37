/**
 The three programs of the message protocol as they are written, with their loops, over a link that
 delivers given chunks. Each is proved to take the steps of `Comm`, one per chunk received; when no
 chunk is left, the program is still waiting.
 */
module CommPrograms {
  import opened MachineInts
  import opened BigEndian
  import opened Comm

  /** One end of the transport: the chunks that will arrive, and those sent so far. */
  class Link {
    var inbox: seq<bytes>
    var outbox: seq<bytes>

    constructor (inbox: seq<bytes>)
      ensures this.inbox == inbox && outbox == []
    {
      this.inbox, this.outbox := inbox, [];
    }

    method Receive() returns (chunk: bytes)
      requires inbox != []
      modifies this
      ensures chunk == old(inbox)[0] && inbox == old(inbox)[1..] && outbox == old(outbox)
    {
      chunk := inbox[0];
      inbox := inbox[1..];
    }

    method Send(chunk: bytes)
      modifies this
      ensures inbox == old(inbox) && outbox == old(outbox) + [chunk]
    {
      outbox := outbox + [chunk];
    }
  }

  function AsSeq(out: Option<bytes>): seq<bytes> {
    match out case None => [] case Some(chunk) => [chunk]
  }

  /** Where a program is, what has not arrived yet, and what it has sent. */
  datatype Progress<P> = Progress(at: P, left: seq<bytes>, sent: seq<bytes>)

  /** The device receives a request: one step per chunk, until it has it, fails or waits in vain. */
  function ReceiveRun(usize: nat, p: Progress<Device>): Progress<Device>
    requires usize > 0
    decreases |p.left|
  {
    if p.left == [] || !(p.at.Idle? || p.at.Receiving?) then p
    else
      var (d, out) := DeviceReceive(usize, p.at, p.left[0]);
      ReceiveRun(usize, Progress(d, p.left[1..], p.sent + AsSeq(out)))
  }

  /** The device sends its reply: one step per acknowledgement. */
  function ReplyRun(usize: nat, p: Progress<Device>): Progress<Device>
    requires usize > 0 && (p.at.AwaitAck? ==> p.at.sent <= |p.at.reply|)
    decreases |p.left|
  {
    if p.left == [] || !p.at.AwaitAck? then p
    else
      var (d, out) := DeviceContinueReply(usize, p.at, p.left[0]);
      ReplyRun(usize, Progress(d, p.left[1..], p.sent + AsSeq(out)))
  }

  /** The host sends a request and collects the response: one step per chunk sent and answered. */
  function HostRun(p: Progress<Host>): Progress<Host>
    requires !p.at.WaitAck? && !p.at.WaitData? && (p.at.Ready? ==> p.at.sent < |p.at.full|)
    decreases |p.left|, if p.at.HostFailed? || p.at.Done? then 0 else 1
  {
    if p.at.Done? || p.at.HostFailed? then p
    else
      var (h, out) := HostSend(p.at);
      var sent := p.sent + AsSeq(out);
      if h.HostFailed? || p.left == [] then Progress(h, p.left, sent)
      else HostRun(Progress(HostReceive(h, p.left[0]), p.left[1..], sent))
  }

  /** `receive_message`. */
  method ReceiveMessage(link: Link, usize: nat) returns (d: Device)
    requires usize > 0
    modifies link
    ensures Progress(d, link.inbox, link.outbox) == ReceiveRun(usize, Progress(Idle, old(link.inbox), old(link.outbox)))
  {
    ghost var run := ReceiveRun(usize, Progress(Idle, link.inbox, link.outbox));
    if link.inbox == [] {
      return Idle;
    }
    var chunk := link.Receive();
    var firstChunkLen := |chunk|;
    if firstChunkLen == 0 {
      return ReceiveFailed(NoMessage);
    }
    if firstChunkLen < 4 {
      return ReceiveFailed(FailedToReadLength);
    }
    var length := FromBE(chunk[..4]);
    if firstChunkLen > (4 + length) % usize {
      return ReceiveFailed(TooManyBytesReceived);
    }
    if !Holds(usize, length) {
      assert link.outbox + [] == link.outbox;
      return Panicked; // no vector has this capacity
    }
    var result := chunk[4..];
    assert link.outbox + [] == link.outbox;
    assert run == ReceiveRun(usize, Progress(DeviceReceive(usize, Idle, chunk).0, link.inbox,
                                             link.outbox + AsSeq(DeviceReceive(usize, Idle, chunk).1)));
    while |result| < length
      invariant |result| < length ==>
                  run == ReceiveRun(usize, Progress(Receiving(length, result), link.inbox, link.outbox + [ACK]))
      invariant |result| >= length ==> run == Progress(Received(result), link.inbox, link.outbox)
      decreases |link.inbox|, length - |result|
    {
      link.Send(ACK);
      var waiting := Receiving(length, result);
      d, chunk := ReceiveNonEmpty(link, usize, waiting);
      if chunk == [] {
        return;
      }
      if |chunk| > length - |result| {
        return ReceiveFailed(TooManyBytesReceived);
      }
      result := result + chunk;
      assert link.outbox + [] == link.outbox;
    }
    d := Received(result);
  }

  /** The inner loop of `receive_message`: zero-length chunks are skipped. */
  method ReceiveNonEmpty(link: Link, usize: nat, d: Device) returns (d': Device, chunk: bytes)
    requires usize > 0 && d.Receiving?
    modifies link
    ensures d' == d && link.outbox == old(link.outbox) && |link.inbox| <= |old(link.inbox)|
    ensures chunk == [] ==>
              ReceiveRun(usize, Progress(d, old(link.inbox), old(link.outbox))) == Progress(d, link.inbox, link.outbox)
    ensures chunk != [] ==>
              && |link.inbox| < |old(link.inbox)|
              && ReceiveRun(usize, Progress(d, old(link.inbox), old(link.outbox)))
              == ReceiveRun(usize, Progress(d, [chunk] + link.inbox, link.outbox))
  {
    ghost var run := ReceiveRun(usize, Progress(d, link.inbox, link.outbox));
    d', chunk := d, [];
    while link.inbox != []
      invariant link.outbox == old(link.outbox) && |link.inbox| <= |old(link.inbox)|
      invariant run == ReceiveRun(usize, Progress(d, link.inbox, link.outbox))
      decreases |link.inbox|
    {
      ghost var inbox := link.inbox;
      assert link.outbox + [] == link.outbox;
      chunk := link.Receive();
      assert inbox == [chunk] + link.inbox;
      if |chunk| != 0 {
        return;
      }
    }
    chunk := [];
  }

  /** `send_message` of the device. */
  method SendReply(link: Link, usize: nat, msg: bytes) returns (d: Device)
    requires usize > 0
    modifies link
    ensures var (start, first) := DeviceStartReply(msg);
            Progress(d, link.inbox, link.outbox)
            == ReplyRun(usize, Progress(start, old(link.inbox), old(link.outbox) + [first]))
  {
    var lengthBe := LengthPrefix(msg);
    var firstChunkMsgBytes := Min(CHUNK_LENGTH - 4, |msg|);
    link.Send(lengthBe + msg[..firstChunkMsgBytes]);
    ghost var run := ReplyRun(usize, Progress(Sending(msg, firstChunkMsgBytes), link.inbox, link.outbox));
    var totalBytesSent := firstChunkMsgBytes;
    while totalBytesSent < |msg|
      invariant 0 <= totalBytesSent <= |msg|
      invariant run == ReplyRun(usize, Progress(Sending(msg, totalBytesSent), link.inbox, link.outbox))
      decreases |link.inbox|, |msg| - totalBytesSent
    {
      if link.inbox == [] {
        return AwaitAck(msg, totalBytesSent);
      }
      ghost var outbox := link.outbox;
      var accChunk := link.Receive();
      if accChunk != ACK {
        assert outbox + [] == outbox;
        return Panicked;
      }
      var endIdx := Min((totalBytesSent + CHUNK_LENGTH) % usize, |msg|);
      if endIdx < totalBytesSent {
        assert outbox + [] == outbox;
        return Panicked; // the slice would start after its end
      }
      var chunk := msg[totalBytesSent..endIdx];
      link.Send(chunk);
      totalBytesSent := endIdx;
    }
    return Replied(msg);
  }

  /** `send_message` of the host. */
  method SendMessage(link: Link, message: bytes) returns (h: Host)
    modifies link
    ensures Progress(h, link.inbox, link.outbox)
         == HostRun(Progress(HostStart(message), old(link.inbox), old(link.outbox)))
  {
    ghost var run := HostRun(Progress(HostStart(message), link.inbox, link.outbox));
    var fullMessage := LengthPrefix(message);
    fullMessage := fullMessage + message;
    var resp := ACK;
    var sent := 0;
    while sent < |fullMessage|
      invariant 0 <= sent <= |fullMessage| && fullMessage == LengthPrefix(message) + message
      invariant sent < |fullMessage| ==>
                  run == HostRun(Progress(Ready(fullMessage, sent, resp), link.inbox, link.outbox))
      invariant sent == |fullMessage| ==> run == HostRun(Progress(HostParse(resp), link.inbox, link.outbox))
    {
      if resp != ACK {
        assert link.outbox + [] == link.outbox;
        return HostFailed(NotAckReceived);
      }
      var endIdx := Min(sent + CHUNK_LENGTH, |fullMessage|);
      link.Send(fullMessage[sent..endIdx]);
      if link.inbox == [] {
        return WaitAck(fullMessage, endIdx);
      }
      resp := link.Receive();
      sent := endIdx;
    }
    if |resp| < 4 {
      return HostFailed(ResponseTooShort);
    }
    var responseDataLen := FromBE(resp[..4]);
    var responseData := resp[4..];
    while |responseData| < responseDataLen
      invariant run == HostRun(Progress(HostCollect(responseDataLen, responseData), link.inbox, link.outbox))
      decreases |link.inbox|, responseDataLen - |responseData|
    {
      link.Send(ACK);
      if link.inbox == [] {
        return WaitData(responseDataLen, responseData);
      }
      var more := link.Receive();
      responseData := responseData + more;
    }
    return Done(responseData);
  }
}
