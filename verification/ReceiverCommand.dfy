/**
 Receiver commands and the dispatcher that writes them,
 `gnss_driver/src/receiver_command_dispatcher.cpp`, with the identity of the UBX message a command
 carries, `gnss_driver/src/ubx_command_response_mapper.cpp`.
 */
module ReceiverCommand {
  import opened Bits
  import Ubx = UbxFramer
  import UbxStream

  datatype CommandKind = UnknownKind | ApplyConfigProfile | SetProtocolOutputs | Query | RawBinary | RawText | ResetReceiver

  datatype Payload = NoPayload | Binary(bytes: seq<byte>) | Text(chars: seq<byte>)

  datatype ExpectedResponse = NoResponse | ExpectAck | ExpectNack | ExpectBinary | ExpectText | ExpectStateUpdate

  datatype SafetyLevel = Runtime | Persistent | FactoryReset

  datatype FailurePolicy = AbortOnFailure | ContinueOnFailure

  datatype Command = Command(
    kind: CommandKind, payload: Payload, expected: ExpectedResponse, safety: SafetyLevel,
    confirmed: bool, policy: FailurePolicy, timeoutMs: nat, maxRetries: nat)

  function PayloadBytes(c: Command): seq<byte> {
    match c.payload
    case NoPayload => []
    case Binary(bytes) => bytes
    case Text(chars) => chars
  }

  predicate HasSafeDispatchApproval(c: Command) {
    c.safety == Runtime || c.confirmed
  }

  predicate IsRequired(c: Command) {
    c.policy == AbortOnFailure
  }

  datatype MessageIdentity = MessageIdentity(classId: byte, messageId: byte)

  function TryGetUbxCommandMessageIdentity(c: Command): Option<MessageIdentity> {
    if !c.payload.Binary? then None
    else
      var bytes := c.payload.bytes;
      if |bytes| < Ubx.HEADER_SIZE + Ubx.CHECKSUM_SIZE || bytes[0] != Ubx.SYNC1 || bytes[1] != Ubx.SYNC2 then None
      else if |bytes| != Ubx.DeclaredSize(bytes, 0) then None
      else Some(MessageIdentity(bytes[2], bytes[3]))
  }

  /** A command that carries one built frame is identified by that frame's class and id. */
  lemma BuiltCommandIdentity(c: Command, m: Ubx.Message)
    requires c.payload == Binary(Ubx.BuildUbxFrame(m)) && |m.payload| < 0x1_0000
    ensures TryGetUbxCommandMessageIdentity(c) == Some(MessageIdentity(m.classId, m.messageId))
  {
    UbxStream.BuiltFrameFacts(m);
  }

  // ----- Dispatching -----------------------------------------------------------------------

  datatype DispatchStatus = Sent | RejectedSafety | RejectedInvalid | WriteError

  datatype DispatchResult = DispatchResult(status: DispatchStatus, bytesWritten: nat)

  /** What a dispatch may answer, whatever the sink does: the part of the payload that was accepted. */
  predicate PossibleDispatch(allowEmpty: bool, c: Command, r: DispatchResult) {
    var payload := PayloadBytes(c);
    if c.kind == UnknownKind then r == DispatchResult(RejectedInvalid, 0)
    else if !HasSafeDispatchApproval(c) then r == DispatchResult(RejectedSafety, 0)
    else if payload == [] && !allowEmpty then r == DispatchResult(RejectedInvalid, 0)
    else
      || r == DispatchResult(Sent, |payload|)
      || (r.status == WriteError && payload != [] && r.bytesWritten <= |payload|)
  }

  /** The bytes a dispatch put on the wire. */
  function Accepted(c: Command, r: DispatchResult): seq<byte> {
    if r.bytesWritten <= |PayloadBytes(c)| then PayloadBytes(c)[..r.bytesWritten] else []
  }

  /** The transport: it accepts any prefix of what it is offered and may report any status. */
  class ByteSink {
    var wire: seq<byte>

    method Write(data: seq<byte>) returns (written: nat, ok: bool)
      modifies this
      ensures written <= |data| && wire == old(wire) + data[..written]
    {
      written :| 0 <= written <= |data|;
      ok := *;
      wire := wire + data[..written];
    }
  }

  datatype DispatcherMetrics = DispatcherMetrics(
    attempted: nat, sent: nat, rejectedSafety: nat, rejectedInvalid: nat, bytesWritten: nat, writeErrors: nat)

  function CountDispatch(m: DispatcherMetrics, r: DispatchResult): DispatcherMetrics {
    var n := m.(attempted := m.attempted + 1);
    match r.status
    case Sent => n.(sent := n.sent + 1, bytesWritten := n.bytesWritten + r.bytesWritten)
    case RejectedSafety => n.(rejectedSafety := n.rejectedSafety + 1)
    case RejectedInvalid => n.(rejectedInvalid := n.rejectedInvalid + 1)
    case WriteError => n.(writeErrors := n.writeErrors + 1, bytesWritten := n.bytesWritten + r.bytesWritten)
  }

  class ReceiverCommandDispatcher {
    const sink: ByteSink
    const allowEmpty: bool
    var metrics: DispatcherMetrics

    constructor (sink: ByteSink, allowEmpty: bool)
      ensures this.sink == sink && this.allowEmpty == allowEmpty
      ensures metrics == DispatcherMetrics(0, 0, 0, 0, 0, 0)
    {
      this.sink, this.allowEmpty := sink, allowEmpty;
      metrics := DispatcherMetrics(0, 0, 0, 0, 0, 0);
    }

    method Dispatch(c: Command) returns (result: DispatchResult)
      modifies this, sink
      ensures PossibleDispatch(allowEmpty, c, result)
      ensures sink.wire == old(sink.wire) + Accepted(c, result)
      ensures metrics == CountDispatch(old(metrics), result)
    {
      metrics := metrics.(attempted := metrics.attempted + 1);
      if c.kind == UnknownKind {
        metrics := metrics.(rejectedInvalid := metrics.rejectedInvalid + 1);
        return DispatchResult(RejectedInvalid, 0);
      }
      if !HasSafeDispatchApproval(c) {
        metrics := metrics.(rejectedSafety := metrics.rejectedSafety + 1);
        return DispatchResult(RejectedSafety, 0);
      }
      var payload := PayloadBytes(c);
      if payload == [] && !allowEmpty {
        metrics := metrics.(rejectedInvalid := metrics.rejectedInvalid + 1);
        return DispatchResult(RejectedInvalid, 0);
      }
      var offset := 0;
      var bytesWritten := 0;
      while offset < |payload|
        invariant 0 <= offset <= |payload| && bytesWritten == offset
        invariant sink.wire == old(sink.wire) + payload[..offset]
        invariant metrics == old(metrics).(attempted := old(metrics).attempted + 1)
        decreases |payload| - offset
      {
        var written, ok := sink.Write(payload[offset..]);
        assert payload[..offset] + payload[offset..][..written] == payload[..offset + written];
        bytesWritten := bytesWritten + written;
        if !ok || written == 0 {
          metrics := metrics.(writeErrors := metrics.writeErrors + 1,
                              bytesWritten := metrics.bytesWritten + bytesWritten);
          return DispatchResult(WriteError, bytesWritten);
        }
        offset := offset + written;
      }
      metrics := metrics.(sent := metrics.sent + 1, bytesWritten := metrics.bytesWritten + bytesWritten);
      return DispatchResult(Sent, bytesWritten);
    }

    method ResetMetrics()
      modifies this
      ensures metrics == DispatcherMetrics(0, 0, 0, 0, 0, 0)
    {
      metrics := DispatcherMetrics(0, 0, 0, 0, 0, 0);
    }
  }

  datatype Dispatch = Dispatch(command: Command, result: DispatchResult)

  function CountAll(dispatches: seq<Dispatch>): DispatcherMetrics {
    if dispatches == [] then DispatcherMetrics(0, 0, 0, 0, 0, 0)
    else CountDispatch(CountAll(dispatches[..|dispatches| - 1]), dispatches[|dispatches| - 1].result)
  }

  /** The wire after a series of dispatches. */
  function WireOf(dispatches: seq<Dispatch>): seq<byte> {
    if dispatches == [] then []
    else
      var last := dispatches[|dispatches| - 1];
      WireOf(dispatches[..|dispatches| - 1]) + Accepted(last.command, last.result)
  }

  /** Each attempt ends in exactly one way, and every byte on the wire is counted once. */
  lemma {:induction false} DispatcherAccounts(allowEmpty: bool, dispatches: seq<Dispatch>)
    requires forall d :: d in dispatches ==> PossibleDispatch(allowEmpty, d.command, d.result)
    ensures var m := CountAll(dispatches);
            && m.attempted == |dispatches| == m.sent + m.rejectedSafety + m.rejectedInvalid + m.writeErrors
            && m.bytesWritten == |WireOf(dispatches)|
  {
    if dispatches != [] {
      var n := |dispatches| - 1;
      assert dispatches[n] in dispatches;
      DispatcherAccounts(allowEmpty, dispatches[..n]);
    }
  }
}
