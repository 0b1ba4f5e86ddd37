/**
 The chunked message protocol between a client and a V-App: client-sdk/src/comm.rs on the host and
 app-sdk/src/comm.rs on the device. Both programs are cut at the points where they wait for the
 other; `usize` is the number of values of the device's `usize`.
 */
module Comm {
  import opened MachineInts
  import opened BigEndian

  const CHUNK_LENGTH: int := 256
  const ACK: bytes := [0x42]

  /**
   What one allocation can hold: no vector and no slice has more than `isize::MAX` bytes, half of the
   values of `usize` without one.
   */
  predicate Holds(usize: nat, length: nat) {
    2 * length < usize
  }

  /** The length of a message, cast to `u32`, in big-endian order. */
  function LengthPrefix(message: bytes): (p: bytes)
    ensures |p| == 4
  {
    ToBE(|message| % TWO_32, 4)
  }

  /** The bytes that come before a message, in the order in which they are sent. */
  lemma PrefixBytes(message: bytes)
    requires |message| < TWO_32
    ensures var n := |message|;
            LengthPrefix(message) == [n / 0x100_0000, n / 0x1_0000 % 0x100, n / 0x100 % 0x100, n % 0x100]
  {
    var n := |message|;
    assert n % TWO_32 == n;
    assert ToBE(n / 0x100_0000, 1) == [n / 0x100_0000] by {
      assert ToBE(n / 0x100_0000 / 256, 0) == [];
    }
    assert ToBE(n / 0x1_0000, 2) == ToBE(n / 0x100_0000, 1) + [n / 0x1_0000 % 0x100];
    assert ToBE(n / 0x100, 3) == ToBE(n / 0x1_0000, 2) + [n / 0x100 % 0x100];
    assert ToBE(n, 4) == ToBE(n / 0x100, 3) + [n % 0x100];
  }

  // ---------------------------------------------------------------------------------------
  // The device
  // ---------------------------------------------------------------------------------------

  datatype MessageError = NoMessage | TooManyBytesReceived | FailedToReadLength

  datatype Device =
    | Idle // about to wait for the first chunk
    | Receiving(length: nat, result: bytes) // waiting for more chunks
    | Received(message: bytes)
    | ReceiveFailed(error: MessageError)
    | AwaitAck(reply: bytes, sent: nat) // waiting for an ACK, `sent` bytes of the reply are out
    | Replied(reply: bytes)
    | Panicked

  /** The loop head of `receive_message`: acknowledge if bytes are missing. */
  function Continue(length: nat, result: bytes): (Device, Option<bytes>) {
    if |result| < length then (Receiving(length, result), Some(ACK)) else (Received(result), None)
  }

  /**
   What `receive_message` does with a chunk, and what it sends. It reserves the announced length before
   it takes the first bytes, which panics when no vector is that long.
   */
  function DeviceReceive(usize: nat, d: Device, chunk: bytes): (r: (Device, Option<bytes>))
    requires usize > 0 && (d.Idle? || d.Receiving?)
  {
    if d.Receiving? then
      if chunk == [] then (d, None)
      else if |chunk| > d.length - |d.result| then (ReceiveFailed(TooManyBytesReceived), None)
      else Continue(d.length, d.result + chunk)
    else
      if |chunk| == 0 then (ReceiveFailed(NoMessage), None)
      else if |chunk| < 4 then (ReceiveFailed(FailedToReadLength), None)
      else
        var length := FromBE(chunk[..4]);
        if |chunk| > (4 + length) % usize then (ReceiveFailed(TooManyBytesReceived), None)
        else if !Holds(usize, length) then (Panicked, None)
        else Continue(length, chunk[4..])
  }

  function Sending(reply: bytes, sent: nat): Device {
    if sent < |reply| then AwaitAck(reply, sent) else Replied(reply)
  }

  /** The start of `send_message`: the length and the first bytes. */
  function DeviceStartReply(reply: bytes): (r: (Device, bytes)) {
    var firstChunkBytes := Min(CHUNK_LENGTH - 4, |reply|);
    (Sending(reply, firstChunkBytes), LengthPrefix(reply) + reply[..firstChunkBytes])
  }

  /** One round of the loop of `send_message`: an ACK comes, a chunk goes. */
  function DeviceContinueReply(usize: nat, d: Device, chunk: bytes): (r: (Device, Option<bytes>))
    requires usize > 0 && d.AwaitAck? && d.sent <= |d.reply|
  {
    var endIdx := Min((d.sent + CHUNK_LENGTH) % usize, |d.reply|);
    if chunk != ACK || endIdx < d.sent then (Panicked, None)
    else (Sending(d.reply, endIdx), Some(d.reply[d.sent..endIdx]))
  }

  // ---------------------------------------------------------------------------------------
  // The host
  // ---------------------------------------------------------------------------------------

  datatype SendMessageError = NotAckReceived | ResponseTooShort

  datatype Host =
    | Ready(full: bytes, sent: nat, resp: bytes) // at the head of the loop over chunks
    | WaitAck(full: bytes, sent: nat)
    | Collecting(length: nat, data: bytes) // at the head of the loop over the response
    | WaitData(length: nat, data: bytes)
    | Done(data: bytes)
    | HostFailed(error: SendMessageError)

  function HostStart(message: bytes): Host {
    Ready(LengthPrefix(message) + message, 0, ACK)
  }

  /** After the last chunk: the reply is a length and data. */
  function HostParse(resp: bytes): Host {
    if |resp| < 4 then HostFailed(ResponseTooShort) else HostCollect(FromBE(resp[..4]), resp[4..])
  }

  function HostCollect(length: nat, data: bytes): Host {
    if |data| < length then Collecting(length, data) else Done(data)
  }

  /** What the host sends, and where it then waits. */
  function HostSend(h: Host): (r: (Host, Option<bytes>))
    requires (h.Ready? && h.sent < |h.full|) || h.Collecting?
  {
    match h
    case Ready(full, sent, resp) =>
      if resp != ACK then (HostFailed(NotAckReceived), None)
      else
        var endIdx := Min(sent + CHUNK_LENGTH, |full|);
        (WaitAck(full, endIdx), Some(full[sent..endIdx]))
    case Collecting(length, data) => (WaitData(length, data), Some(ACK))
  }

  /** What the host does with what it receives. */
  function HostReceive(h: Host, resp: bytes): Host
    requires h.WaitAck? || h.WaitData?
  {
    match h
    case WaitAck(full, sent) => if sent < |full| then Ready(full, sent, resp) else HostParse(resp)
    case WaitData(length, data) => HostCollect(length, data + resp)
  }

  // ---------------------------------------------------------------------------------------
  // What is on the wire, and what is refused
  // ---------------------------------------------------------------------------------------

  /** The first chunk of a message, and of a reply: four bytes of length, and at most 252 bytes more. */
  lemma FirstChunks(message: bytes)
    requires |message| < TWO_32
    ensures var n := |message|;
            var first := [n / 0x100_0000, n / 0x1_0000 % 0x100, n / 0x100 % 0x100, n % 0x100] + message[..Min(n, 252)];
            HostSend(HostStart(message)).1 == Some(first) && DeviceStartReply(message).1 == first
  {
    PrefixBytes(message);
    var full := LengthPrefix(message) + message;
    assert full[0..Min(CHUNK_LENGTH, |full|)] == LengthPrefix(message) + message[..Min(|message|, 252)];
  }

  lemma FourBytes(s: bytes)
    requires |s| == 4
    ensures FromBE(s) == 0x100_0000 * s[0] as int + 0x1_0000 * s[1] as int + 0x100 * s[2] as int + s[3] as int
  {
    assert FromBE(s[..0]) == 0;
    assert s[..1][..0] == s[..0] && FromBE(s[..1]) == s[0];
    assert s[..2][..1] == s[..1] && FromBE(s[..2]) == 0x100 * s[0] as int + s[1] as int;
    assert s[..3][..2] == s[..2] && FromBE(s[..3]) == 0x1_0000 * s[0] as int + 0x100 * s[1] as int + s[2] as int;
  }

  /** What the device does with a first chunk it does not take: it names the error, or cannot reserve the memory. */
  lemma FirstChunkRefused(usize: nat, chunk: bytes)
    requires usize > 0
    ensures var d := DeviceReceive(usize, Idle, chunk).0;
            && (d == ReceiveFailed(NoMessage) <==> |chunk| == 0)
            && (d == ReceiveFailed(FailedToReadLength) <==> 0 < |chunk| < 4)
            && (|chunk| >= 4 ==>
                  var n := 0x100_0000 * chunk[0] as int + 0x1_0000 * chunk[1] as int + 0x100 * chunk[2] as int + chunk[3] as int;
                  && (d == ReceiveFailed(TooManyBytesReceived) <==> |chunk| > (4 + n) % usize)
                  && (d == Panicked <==> |chunk| <= (4 + n) % usize && 2 * n >= usize))
  {
    if |chunk| >= 4 {
      FourBytes(chunk[..4]);
    }
  }

  /** The host goes on only after an acknowledgement, the byte 0x42, and takes no reply without a length. */
  lemma HostRefuses(full: bytes, sent: nat, resp: bytes)
    requires sent < |full|
    ensures HostSend(Ready(full, sent, resp)).0 == HostFailed(NotAckReceived) <==> resp != [0x42]
    ensures HostParse(resp) == HostFailed(ResponseTooShort) <==> |resp| < 4
  {
  }

  // ---------------------------------------------------------------------------------------
  // Both together
  // ---------------------------------------------------------------------------------------

  datatype System = System(
    host: Host,
    device: Device,
    toDevice: Option<bytes>,
    toHost: Option<bytes>,
    delivered: Option<bytes>, // the request, once the device has it
    exchanges: nat) // how many chunks the host has sent

  /** The device's size of `usize`, and the application: what it replies to a request. */
  datatype App = App(usize: nat, handler: bytes -> bytes)

  function Init(message: bytes): System {
    System(HostStart(message), Idle, None, None, None, 0)
  }

  ghost predicate HostSends(s: System, s': System) {
    && ((s.host.Ready? && s.host.sent < |s.host.full|) || s.host.Collecting?)
    && var (host, out) := HostSend(s.host);
       s' == s.(host := host, toDevice := out, exchanges := s.exchanges + 1)
  }

  ghost predicate DeviceReceives(app: App, s: System, s': System) {
    && app.usize > 0 && s.toDevice.Some? && (s.device.Idle? || s.device.Receiving?)
    && var (device, out) := DeviceReceive(app.usize, s.device, s.toDevice.value);
       s' == s.(device := device, toDevice := None, toHost := out,
                delivered := if device.Received? then Some(device.message) else s.delivered)
  }

  ghost predicate DeviceReplies(app: App, s: System, s': System) {
    && s.device.Received?
    && var (device, out) := DeviceStartReply(app.handler(s.device.message));
       s' == s.(device := device, toHost := Some(out))
  }

  ghost predicate DeviceContinues(app: App, s: System, s': System) {
    && app.usize > 0 && s.toDevice.Some? && s.device.AwaitAck? && s.device.sent <= |s.device.reply|
    && var (device, out) := DeviceContinueReply(app.usize, s.device, s.toDevice.value);
       s' == s.(device := device, toDevice := None, toHost := out)
  }

  ghost predicate HostReceives(s: System, s': System) {
    && s.toHost.Some? && (s.host.WaitAck? || s.host.WaitData?)
    && s' == s.(host := HostReceive(s.host, s.toHost.value), toHost := None)
  }

  /** One of the two programs runs up to its next wait. */
  ghost predicate Step(app: App, s: System, s': System) {
    || HostSends(s, s')
    || DeviceReceives(app, s, s')
    || DeviceReplies(app, s, s')
    || DeviceContinues(app, s, s')
    || HostReceives(s, s')
  }

  /** A zero-length chunk reaches the device while it waits for more of the request. */
  ghost predicate EmptyChunk(app: App, s: System, s': System) {
    && app.usize > 0 && s.device.Receiving?
    && s' == s.(device := DeviceReceive(app.usize, s.device, []).0)
  }

  function CeilDiv(n: nat, d: nat): nat
    requires d > 0
  {
    (n + d - 1) / d
  }

  function RequestChunks(message: bytes): nat {
    CeilDiv(4 + |message|, CHUNK_LENGTH)
  }

  function ReplyRounds(reply: bytes): nat {
    if |reply| <= CHUNK_LENGTH - 4 then 0 else CeilDiv(|reply| - (CHUNK_LENGTH - 4), CHUNK_LENGTH)
  }

  /** The reply bytes that are out after `k` further rounds. */
  function ReplySent(reply: bytes, k: nat): nat {
    Min(CHUNK_LENGTH - 4 + CHUNK_LENGTH * k, |reply|)
  }

  /**
   A device and an application as they can be: `usize` has at least 32 bits, the lengths of request and
   reply fit in 32 bits, and the reply is a slice in the device's memory.
   */
  ghost predicate Sound(app: App, message: bytes) {
    && app.usize % 2 == 0 && app.usize >= TWO_32
    && |message| < TWO_32
    && |app.handler(message)| < TWO_32 && Holds(app.usize, |app.handler(message)|)
  }

  /** Moreover the device can hold the request. */
  ghost predicate Fits(app: App, message: bytes) {
    Sound(app, message) && Holds(app.usize, |message|)
  }

  /** The device while the first `sent` bytes of the framed request have been received. */
  ghost predicate DeviceHas(d: Device, message: bytes, sent: nat) {
    if sent == 0 then d == Idle else 4 <= sent <= 4 + |message| && d == Receiving(|message|, message[..sent - 4])
  }

  /** Where the two programs are, at every moment of a run. */
  ghost predicate Inv(app: App, message: bytes, s: System) {
    var full, reply := LengthPrefix(message) + message, app.handler(message);
    match s.host
    case Ready(f, sent, resp) =>
      && f == full && sent == CHUNK_LENGTH * s.exchanges < |full| && resp == ACK
      && DeviceHas(s.device, message, sent)
      && s.toDevice.None? && s.toHost.None? && s.delivered.None?
    case WaitAck(f, sent) =>
      && f == full && s.exchanges > 0 && sent == Min(CHUNK_LENGTH * s.exchanges, |full|)
      && CHUNK_LENGTH * (s.exchanges - 1) < |full|
      && (|| (&& s.toDevice == Some(full[CHUNK_LENGTH * (s.exchanges - 1)..sent]) && s.toHost.None?
              && DeviceHas(s.device, message, CHUNK_LENGTH * (s.exchanges - 1)) && s.delivered.None?)
          || (&& sent < |full| && s.toDevice.None? && s.toHost == Some(ACK)
              && DeviceHas(s.device, message, sent) && s.delivered.None?)
          || (&& sent == |full| && s.toDevice.None? && s.toHost.None?
              && s.device == Received(message) && s.delivered == Some(message))
          || (&& sent == |full| && s.toDevice.None? && s.delivered == Some(message)
              && s.toHost == Some(LengthPrefix(reply) + reply[..ReplySent(reply, 0)])
              && s.device == Sending(reply, ReplySent(reply, 0))))
    case Collecting(length, data) =>
      && s.exchanges >= RequestChunks(message) && s.delivered == Some(message)
      && var sent := ReplySent(reply, s.exchanges - RequestChunks(message));
         && length == |reply| && data == reply[..sent] && sent < |reply|
         && s.device == Sending(reply, sent) && s.toDevice.None? && s.toHost.None?
    case WaitData(length, data) =>
      && s.exchanges > RequestChunks(message) && s.delivered == Some(message) && length == |reply|
      && var (before, sent) := (ReplySent(reply, s.exchanges - RequestChunks(message) - 1),
                                ReplySent(reply, s.exchanges - RequestChunks(message)));
         && data == reply[..before] && before < |reply|
         && (|| (s.toDevice == Some(ACK) && s.toHost.None? && s.device == Sending(reply, before))
             || (s.toDevice.None? && s.toHost == Some(reply[before..sent]) && s.device == Sending(reply, sent)))
    case Done(data) =>
      && s.exchanges == RequestChunks(message) + ReplyRounds(reply) && s.delivered == Some(message)
      && data == reply && s.device == Replied(reply) && s.toDevice.None? && s.toHost.None?
    case HostFailed(_) => false
  }

  // ---------------------------------------------------------------------------------------
  // Chunks and counts
  // ---------------------------------------------------------------------------------------

  lemma PrefixIsLength(message: bytes)
    requires |message| < TWO_32
    ensures FromBE(LengthPrefix(message)) == |message|
  {
    var n := |message|;
    assert n % TWO_32 == n;
    Pow256Widths();
    FromToBE(n, 4);
  }

  lemma PrefixAndRest(message: bytes, n: nat)
    requires n <= |message| < TWO_32
    ensures var chunk := LengthPrefix(message) + message[..n];
            FromBE(chunk[..4]) == |message| && chunk[4..] == message[..n]
  {
    PrefixIsLength(message);
    var chunk := LengthPrefix(message) + message[..n];
    assert chunk[..4] == LengthPrefix(message);
  }

  lemma CeilDivIsLeast(n: nat, k: nat)
    ensures CHUNK_LENGTH * k < n <==> k < CeilDiv(n, CHUNK_LENGTH)
  {
  }

  lemma ReplyRoundsLeft(reply: bytes, k: nat)
    ensures ReplySent(reply, k) < |reply| <==> k < ReplyRounds(reply)
  {
    if |reply| > CHUNK_LENGTH - 4 {
      CeilDivIsLeast(|reply| - (CHUNK_LENGTH - 4), k);
    }
  }

  /** The first chunk: the device learns the length and takes the rest. */
  lemma FirstChunk(usize: nat, message: bytes, full: bytes, sent: nat)
    requires usize > 8 && Holds(usize, |message|) && |message| < TWO_32 && full == LengthPrefix(message) + message
    requires sent == Min(CHUNK_LENGTH, |full|)
    ensures DeviceReceive(usize, Idle, full[0..sent]) == Continue(|message|, message[..sent - 4])
  {
    var chunk := full[0..sent];
    assert chunk == LengthPrefix(message) + message[..sent - 4];
    PrefixAndRest(message, sent - 4);
    SmallModulus(4 + |message|, usize);
  }

  lemma SmallModulus(n: nat, usize: nat)
    requires n < usize
    ensures n % usize == n
  {
  }

  /** Each later chunk: the device takes it as it is. */
  lemma LaterChunk(usize: nat, message: bytes, full: bytes, before: nat, sent: nat)
    requires usize > 0 && full == LengthPrefix(message) + message
    requires 4 <= before < sent <= |full|
    ensures DeviceReceive(usize, Receiving(|message|, message[..before - 4]), full[before..sent])
         == Continue(|message|, message[..sent - 4])
  {
    assert full[before..sent] == message[before - 4..sent - 4];
    assert message[..before - 4] + message[before - 4..sent - 4] == message[..sent - 4];
  }

  // ---------------------------------------------------------------------------------------
  // Every step keeps the two programs in step
  // ---------------------------------------------------------------------------------------

  lemma InitInv(app: App, message: bytes)
    requires Fits(app, message)
    ensures Inv(app, message, Init(message))
  {
  }

  lemma HostSendsInv(app: App, message: bytes, s: System, s': System)
    requires Fits(app, message) && Inv(app, message, s) && HostSends(s, s')
    ensures Inv(app, message, s')
  {
    if s.host.Collecting? {
      CeilDivIsLeast(4 + |message|, s.exchanges);
    }
  }

  lemma DeviceReceivesInv(app: App, message: bytes, s: System, s': System)
    requires Fits(app, message) && Inv(app, message, s) && DeviceReceives(app, s, s')
    ensures Inv(app, message, s')
  {
    var full, before := LengthPrefix(message) + message, CHUNK_LENGTH * (s.exchanges - 1);
    var sent := s.host.sent;
    if before == 0 {
      FirstChunk(app.usize, message, full, sent);
    } else {
      LaterChunk(app.usize, message, full, before, sent);
    }
    assert message[..|message|] == message;
  }

  lemma DeviceRepliesInv(app: App, message: bytes, s: System, s': System)
    requires Fits(app, message) && Inv(app, message, s) && DeviceReplies(app, s, s')
    ensures Inv(app, message, s')
  {
  }

  lemma DeviceContinuesInv(app: App, message: bytes, s: System, s': System)
    requires Fits(app, message) && Inv(app, message, s) && DeviceContinues(app, s, s')
    ensures Inv(app, message, s')
  {
    var reply, k := app.handler(message), s.exchanges - RequestChunks(message);
    ReplyRound(app.usize, reply, k - 1);
  }

  /** For a reply that a slice can hold the next index never wraps around. */
  lemma ReplyRound(usize: nat, reply: bytes, k: nat)
    requires usize >= 2 * CHUNK_LENGTH && Holds(usize, |reply|) && ReplySent(reply, k) < |reply|
    ensures var (before, sent) := (ReplySent(reply, k), ReplySent(reply, k + 1));
            before < sent && DeviceContinueReply(usize, AwaitAck(reply, before), ACK)
                          == (Sending(reply, sent), Some(reply[before..sent]))
  {
    var before := CHUNK_LENGTH - 4 + CHUNK_LENGTH * k;
    SmallModulus(before + CHUNK_LENGTH, usize);
  }

  lemma HostReceivesInv(app: App, message: bytes, s: System, s': System)
    requires Fits(app, message) && Inv(app, message, s) && HostReceives(s, s')
    ensures Inv(app, message, s')
  {
    var reply := app.handler(message);
    CeilDivIsLeast(4 + |message|, s.exchanges - 1);
    CeilDivIsLeast(4 + |message|, s.exchanges);
    if s.host.WaitAck? {
      PrefixAndRest(reply, ReplySent(reply, 0));
      ReplyRoundsLeft(reply, 0);
    } else {
      var k := s.exchanges - RequestChunks(message);
      var before, sent := ReplySent(reply, k - 1), ReplySent(reply, k);
      assert reply[..before] + reply[before..sent] == reply[..sent];
      ReplyRoundsLeft(reply, k - 1);
      ReplyRoundsLeft(reply, k);
    }
    assert reply[..|reply|] == reply;
  }

  lemma StepInv(app: App, message: bytes, s: System, s': System)
    requires Fits(app, message) && Inv(app, message, s) && Step(app, s, s')
    ensures Inv(app, message, s')
  {
    if HostSends(s, s') {
      HostSendsInv(app, message, s, s');
    } else if DeviceReceives(app, s, s') {
      DeviceReceivesInv(app, message, s, s');
    } else if DeviceReplies(app, s, s') {
      DeviceRepliesInv(app, message, s, s');
    } else if DeviceContinues(app, s, s') {
      DeviceContinuesInv(app, message, s, s');
    } else {
      HostReceivesInv(app, message, s, s');
    }
  }

  // ---------------------------------------------------------------------------------------
  // Progress
  // ---------------------------------------------------------------------------------------

  function Exchanges(app: App, message: bytes): nat {
    RequestChunks(message) + ReplyRounds(app.handler(message))
  }

  /** How many steps are left. */
  ghost function StepsLeft(app: App, message: bytes, s: System): int {
    3 * (Exchanges(app, message) - s.exchanges)
    + match s.host
      case Ready(_, _, _) => 1
      case WaitAck(_, _) =>
        if s.toDevice.Some? then 3 else if s.delivered.None? || s.toHost.None? then 2 else 1
      case WaitData(_, _) => if s.toDevice.Some? then 2 else 1
      case _ => 0
  }

  /** No step is ever missing: steps are left exactly while the host is not done. */
  lemma StepsLeftWhileRunning(app: App, message: bytes, s: System)
    requires Fits(app, message) && Inv(app, message, s)
    ensures s.host.Done? ==> StepsLeft(app, message, s) == 0
    ensures !s.host.Done? ==> StepsLeft(app, message, s) > 0
  {
    var reply := app.handler(message);
    match s.host
    case Ready(_, _, _) => CeilDivIsLeast(4 + |message|, s.exchanges);
    case WaitAck(_, _) => CeilDivIsLeast(4 + |message|, s.exchanges - 1);
    case Collecting(_, _) => ReplyRoundsLeft(reply, s.exchanges - RequestChunks(message));
    case WaitData(_, _) => ReplyRoundsLeft(reply, s.exchanges - RequestChunks(message) - 1);
    case Done(_) =>
    case HostFailed(_) =>
  }

  lemma StepCountsDown(app: App, message: bytes, s: System, s': System)
    requires Fits(app, message) && Inv(app, message, s) && Step(app, s, s')
    ensures StepsLeft(app, message, s') == StepsLeft(app, message, s) - 1
  {
    StepInv(app, message, s, s');
  }

  /** No deadlock: while the host is not done, one of the programs can run. */
  lemma NeverStuck(app: App, message: bytes, s: System) returns (s': System)
    requires Fits(app, message) && Inv(app, message, s) && !s.host.Done?
    ensures Step(app, s, s')
  {
    if s.toHost.Some? {
      s' := s.(host := HostReceive(s.host, s.toHost.value), toHost := None);
      assert HostReceives(s, s');
    } else if s.toDevice.Some? && s.device.AwaitAck? {
      var (device, out) := DeviceContinueReply(app.usize, s.device, s.toDevice.value);
      s' := s.(device := device, toDevice := None, toHost := out);
      assert DeviceContinues(app, s, s');
    } else if s.toDevice.Some? {
      var (device, out) := DeviceReceive(app.usize, s.device, s.toDevice.value);
      s' := s.(device := device, toDevice := None, toHost := out,
               delivered := if device.Received? then Some(device.message) else s.delivered);
      assert DeviceReceives(app, s, s');
    } else if s.device.Received? {
      var (device, out) := DeviceStartReply(app.handler(s.device.message));
      s' := s.(device := device, toHost := Some(out));
      assert DeviceReplies(app, s, s');
    } else {
      var (host, out) := HostSend(s.host);
      s' := s.(host := host, toDevice := out, exchanges := s.exchanges + 1);
      assert HostSends(s, s');
    }
  }

  // ---------------------------------------------------------------------------------------
  // Whole runs
  // ---------------------------------------------------------------------------------------

  /** A run from the start, with zero-length chunks wherever the device waits for more. */
  ghost predicate IsRun(app: App, message: bytes, run: seq<System>) {
    && run != [] && run[0] == Init(message)
    && forall i :: 0 <= i < |run| - 1 ==> MayFollow(app, run[i], run[i + 1])
  }

  ghost predicate MayFollow(app: App, s: System, s': System) {
    Step(app, s, s') || EmptyChunk(app, s, s')
  }

  lemma FrontOfRun(app: App, message: bytes, run: seq<System>)
    requires IsRun(app, message, run) && |run| > 1
    ensures IsRun(app, message, run[..|run| - 1])
    ensures MayFollow(app, run[|run| - 2], run[|run| - 1])
  {
    assert MayFollow(app, run[|run| - 2], run[|run| - 2 + 1]);
  }

  /** How many steps of a run are steps of the programs. */
  ghost function Steps(run: seq<System>): nat {
    if |run| <= 1 then 0
    else Steps(run[..|run| - 1]) + if run[|run| - 1] == run[|run| - 2] then 0 else 1
  }

  lemma {:induction false} RunInv(app: App, message: bytes, run: seq<System>)
    requires Fits(app, message) && IsRun(app, message, run)
    ensures Inv(app, message, run[|run| - 1])
    ensures Steps(run) + StepsLeft(app, message, run[|run| - 1]) == 3 * Exchanges(app, message) + 1
  {
    if |run| == 1 {
      InitInv(app, message);
    } else {
      var front, s, s' := run[..|run| - 1], run[|run| - 2], run[|run| - 1];
      FrontOfRun(app, message, run);
      RunInv(app, message, front);
      assert front[|front| - 1] == s;
      if Step(app, s, s') {
        StepInv(app, message, s, s');
        StepCountsDown(app, message, s, s');
      } else {
        assert s' == s;
      }
    }
  }

  /**
   Every run, with any zero-length chunks in between: neither side ever reports an error, the
   programs are never both waiting before the host is done, every run is finished after the same
   number of steps, and then both byte strings have arrived exactly, after
   `ceil((4 + m) / 256) + ceil(max(0, r - 252) / 256)` exchanges.
   */
  lemma EveryRunDelivers(app: App, message: bytes, run: seq<System>)
    requires Fits(app, message) && IsRun(app, message, run)
    ensures var s := run[|run| - 1];
            && !s.host.HostFailed? && !s.device.ReceiveFailed? && !s.device.Panicked?
            && (s.host.Done? || exists s' :: Step(app, s, s'))
            && Steps(run) <= 3 * Exchanges(app, message) + 1
            && (s.host.Done? <==> Steps(run) == 3 * Exchanges(app, message) + 1)
            && (s.host.Done? ==>
                  && s.delivered == Some(message) && s.host.data == app.handler(message)
                  && s.device == Replied(app.handler(message))
                  && s.exchanges == RequestChunks(message) + ReplyRounds(app.handler(message)))
  {
    var s := run[|run| - 1];
    RunInv(app, message, run);
    StepsLeftWhileRunning(app, message, s);
    if !s.host.Done? {
      var s' := NeverStuck(app, message, s);
    }
  }

  // ---------------------------------------------------------------------------------------
  // Requests that the device cannot hold
  // ---------------------------------------------------------------------------------------

  /** What the host sends first. */
  function FirstOut(message: bytes): bytes {
    var full := LengthPrefix(message) + message;
    full[0..Min(CHUNK_LENGTH, |full|)]
  }

  /**
   The device takes the first chunk of a request if and only if it can hold the request. Of a longer
   one it reports too many bytes if the length and its prefix wrap around; otherwise it panics.
   */
  lemma RequestLimit(app: App, message: bytes)
    requires Sound(app, message)
    ensures DeviceReceive(app.usize, Idle, FirstOut(message))
         == if Holds(app.usize, |message|) then Continue(|message|, message[..Min(CHUNK_LENGTH - 4, |message|)])
            else if 4 + |message| >= app.usize then (ReceiveFailed(TooManyBytesReceived), None)
            else (Panicked, None)
  {
    var full := LengthPrefix(message) + message;
    if Holds(app.usize, |message|) {
      FirstChunk(app.usize, message, full, Min(CHUNK_LENGTH, |full|));
    } else {
      var chunk := FirstOut(message);
      assert chunk == LengthPrefix(message) + message[..CHUNK_LENGTH - 4];
      PrefixAndRest(message, CHUNK_LENGTH - 4);
      TooLong(app.usize, |message|, chunk);
    }
  }

  lemma TooLong(usize: nat, length: nat, chunk: bytes)
    requires usize >= TWO_32 && length < TWO_32 && !Holds(usize, length)
    requires |chunk| == CHUNK_LENGTH && FromBE(chunk[..4]) == length
    ensures DeviceReceive(usize, Idle, chunk)
         == (if 4 + length >= usize then ReceiveFailed(TooManyBytesReceived) else Panicked, None)
  {
    if 4 + length < usize {
      SmallModulus(4 + length, usize);
    } else {
      Remainder(4 + length, 1, usize, 4 + length - usize);
    }
  }

  /** All states of a run with a request that the device cannot hold. */
  ghost predicate RefusedInv(app: App, message: bytes, s: System) {
    var full := LengthPrefix(message) + message;
    || s == Init(message)
    || (&& s.host == WaitAck(full, CHUNK_LENGTH) && s.toHost.None? && s.delivered.None?
        && if s.toDevice.Some? then s.device.Idle? && s.toDevice.value == FirstOut(message)
           else s.device.ReceiveFailed? || s.device.Panicked?)
  }

  lemma RefusedStep(app: App, message: bytes, s: System, s': System)
    requires Sound(app, message) && !Holds(app.usize, |message|)
    requires RefusedInv(app, message, s) && MayFollow(app, s, s')
    ensures RefusedInv(app, message, s')
  {
    RequestLimit(app, message);
  }

  lemma {:induction false} RefusedRun(app: App, message: bytes, run: seq<System>)
    requires Sound(app, message) && !Holds(app.usize, |message|) && IsRun(app, message, run)
    ensures RefusedInv(app, message, run[|run| - 1])
  {
    if |run| > 1 {
      FrontOfRun(app, message, run);
      RefusedRun(app, message, run[..|run| - 1]);
      RefusedStep(app, message, run[|run| - 2], run[|run| - 1]);
    }
  }

  /** From any state on the way, a run can be continued until the host is done. */
  lemma {:induction false} Finish(app: App, message: bytes, run: seq<System>) returns (whole: seq<System>)
    requires Fits(app, message) && IsRun(app, message, run)
    ensures IsRun(app, message, whole) && whole[|whole| - 1].host.Done?
    decreases 3 * Exchanges(app, message) + 1 - Steps(run)
  {
    var s := run[|run| - 1];
    RunInv(app, message, run);
    StepsLeftWhileRunning(app, message, s);
    if s.host.Done? {
      whole := run;
    } else {
      var s' := NeverStuck(app, message, s);
      StepInv(app, message, s, s');
      StepCountsDown(app, message, s, s');
      var longer := run + [s'];
      assert longer[..|longer| - 1] == run;
      whole := Finish(app, message, longer);
    }
  }

  /** The host is done at the end of this run, and both byte strings have arrived. */
  ghost predicate Delivers(app: App, message: bytes, run: seq<System>) {
    && IsRun(app, message, run)
    && var s := run[|run| - 1];
       s.delivered == Some(message) && s.host == Done(app.handler(message))
  }

  /**
   A request is delivered and answered in some run, and then in every run that is long enough, if and
   only if the device can hold it; else no run ever delivers it, nor is the host ever done.
   */
  lemma DeliversExactlyWhatFits(app: App, message: bytes)
    requires Sound(app, message)
    ensures Holds(app.usize, |message|) <==> exists run :: Delivers(app, message, run)
    ensures !Holds(app.usize, |message|) ==>
              forall run: seq<System> :: IsRun(app, message, run) ==>
                !run[|run| - 1].host.Done? && run[|run| - 1].delivered.None?
  {
    if Holds(app.usize, |message|) {
      var run := Finish(app, message, [Init(message)]);
      EveryRunDelivers(app, message, run);
      assert Delivers(app, message, run);
    } else {
      forall run: seq<System> | IsRun(app, message, run)
        ensures !run[|run| - 1].host.Done? && run[|run| - 1].delivered.None?
      {
        RefusedRun(app, message, run);
      }
    }
  }

  /** A device with 64-bit addresses holds every request whose length fits in 32 bits. */
  lemma WideDeviceHolds(app: App, message: bytes)
    requires Sound(app, message) && app.usize >= 2 * TWO_32
    ensures Fits(app, message) && exists run :: Delivers(app, message, run)
  {
    DeliversExactlyWhatFits(app, message);
  }
}
