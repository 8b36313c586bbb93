/** kernel/src/io/ps2/ps2.c: resetting a device behind a PS/2 controller. The
    controller is unconstrained: its status and data ports deliver any two streams of
    bytes, which covers every reaction to what is written. All accesses are traced. */
module Ps2 {
  import opened Machine

  datatype Access = StatusRead(value: u8) | DataRead(value: u8) | DataWrite(value: u8) | CommandWrite(value: u8)

  datatype Error = NoError | Timeout

  datatype DeviceType = Unknown | NoType | Type00 | Type03

  datatype DeviceStatus = NotConnected | SelfCheckFail | NoDeviceId | Okay

  const INPUT_POLLS: int := 100000000
  const OUTPUT_POLLS: int := 10000

  /** The most accesses that sending a byte and reading one take. */
  const WRITE_LIMIT: nat := 2 * (INPUT_POLLS + 2)
  const READ_LIMIT: nat := OUTPUT_POLLS + 2

  /** Bit 1 of the status is clear: the controller takes a byte. */
  predicate InputReady(status: u8) { status / 2 % 2 == 0 }

  /** Bit 0 of the status is set: a byte is waiting. */
  predicate OutputReady(status: u8) { status % 2 == 1 }

  predicate InputReadyAt(stream: nat -> u8, from: nat, k: nat) { InputReady(stream(from + k)) }

  predicate OutputReadyAt(stream: nat -> u8, from: nat, k: nat) { OutputReady(stream(from + k)) }

  // ------------------------------------------------------------------ the trace

  /** A read of the data port directly follows a status read with bit 0 set, and a
      write to a port one with bit 1 clear. */
  predicate DisciplinedAt(t: seq<Access>, i: nat)
    requires i < |t|
  {
    && (t[i].DataRead? ==> i > 0 && t[i - 1].StatusRead? && OutputReady(t[i - 1].value))
    && (IsWrite(t[i]) ==> i > 0 && t[i - 1].StatusRead? && InputReady(t[i - 1].value))
  }

  predicate Disciplined(t: seq<Access>) {
    forall i :: 0 <= i < |t| ==> DisciplinedAt(t, i)
  }

  lemma DisciplinedConcat(a: seq<Access>, b: seq<Access>)
    requires Disciplined(a) && Disciplined(b)
    ensures Disciplined(a + b)
  {
    forall i | 0 <= i < |a + b| ensures DisciplinedAt(a + b, i) {
      if i < |a| {
        assert DisciplinedAt(a, i);
      } else {
        assert DisciplinedAt(b, i - |a|);
      }
    }
  }

  lemma TraceAppend(start: seq<Access>, a: seq<Access>, b: seq<Access>)
    ensures start + a + b == start + (a + b)
  {
  }

  /** The bytes read from the data port. */
  function Received(t: seq<Access>): seq<u8> {
    if t == [] then []
    else if t[|t| - 1].DataRead? then Received(t[..|t| - 1]) + [t[|t| - 1].value]
    else Received(t[..|t| - 1])
  }

  lemma {:induction false} ReceivedConcat(a: seq<Access>, b: seq<Access>)
    ensures Received(a + b) == Received(a) + Received(b)
    decreases |b|
  {
    if b == [] {
      assert a + b == a;
    } else {
      ReceivedConcat(a, b[..|b| - 1]);
      assert (a + b)[..|a + b| - 1] == a + b[..|b| - 1];
    }
  }

  predicate IsWrite(a: Access) { a.DataWrite? || a.CommandWrite? }

  /** The writes to either port. */
  function Written(t: seq<Access>): seq<Access> {
    if t == [] then []
    else if IsWrite(t[|t| - 1]) then Written(t[..|t| - 1]) + [t[|t| - 1]]
    else Written(t[..|t| - 1])
  }

  lemma {:induction false} WrittenConcat(a: seq<Access>, b: seq<Access>)
    ensures Written(a + b) == Written(a) + Written(b)
    decreases |b|
  {
    if b == [] {
      assert a + b == a;
    } else {
      WrittenConcat(a, b[..|b| - 1]);
      assert (a + b)[..|a + b| - 1] == a + b[..|b| - 1];
    }
  }

  /** Reading on after an exchange that wrote nothing. */
  lemma ReadsConcat(a: seq<Access>, b: seq<Access>, d: u8)
    requires Disciplined(a) && Disciplined(b) && Written(a) == Written(b) == []
    ensures Disciplined(a + b) && Written(a + b) == []
    ensures Received(b) == [] ==> Received(a + b) == Received(a)
    ensures Received(b) == [d] ==> Received(a + b) == Received(a) + [d]
  {
    DisciplinedConcat(a, b);
    ReceivedConcat(a, b);
    WrittenConcat(a, b);
  }

  /** Writing on after an exchange that received nothing. */
  lemma WritesConcat(a: seq<Access>, b: seq<Access>, w: Access)
    requires Disciplined(a) && Disciplined(b) && Received(a) == Received(b) == []
    ensures Disciplined(a + b) && Received(a + b) == []
    ensures Written(b) == [] ==> Written(a + b) == Written(a)
    ensures Written(b) == [w] ==> Written(a + b) == Written(a) + [w]
  {
    DisciplinedConcat(a, b);
    ReceivedConcat(a, b);
    WrittenConcat(a, b);
  }

  /** What a byte for a device takes: for the second port a command comes first. */
  function SendSequence(isPort1: bool, data: u8): seq<Access> {
    if isPort1 then [DataWrite(data)] else [CommandWrite(0xD4), DataWrite(data)]
  }

  /** Status reads from a stream. */
  function Polls(stream: nat -> u8, from: nat, count: nat): seq<Access> {
    seq(count, i requires 0 <= i => StatusRead(stream(from + i)))
  }

  lemma {:induction false} PollsOnlyPoll(stream: nat -> u8, from: nat, count: nat)
    ensures Disciplined(Polls(stream, from, count))
    ensures Received(Polls(stream, from, count)) == [] && Written(Polls(stream, from, count)) == []
    decreases count
  {
    if count > 0 {
      PollsOnlyPoll(stream, from, count - 1);
      assert Polls(stream, from, count)[..count - 1] == Polls(stream, from, count - 1);
    }
  }

  predicate LastPollAllows(polls: seq<Access>, use: Access) {
    && polls != [] && polls[|polls| - 1].StatusRead?
    && (use.DataRead? ==> OutputReady(polls[|polls| - 1].value))
    && (IsWrite(use) ==> InputReady(polls[|polls| - 1].value))
  }

  lemma UseIsDisciplined(polls: seq<Access>, use: Access)
    requires Disciplined(polls) && LastPollAllows(polls, use)
    ensures Disciplined(polls + [use])
  {
    forall i | 0 <= i < |polls + [use]| ensures DisciplinedAt(polls + [use], i) {
      if i < |polls| {
        assert DisciplinedAt(polls, i);
      }
    }
  }

  /** Polling until the controller is ready and then using the port. */
  lemma UseAfterPolls(stream: nat -> u8, from: nat, polls: seq<Access>, use: Access)
    requires polls == Polls(stream, from, |polls|) && LastPollAllows(polls, use)
    ensures Disciplined(polls + [use])
    ensures Received(polls + [use]) == if use.DataRead? then [use.value] else []
    ensures Written(polls + [use]) == if IsWrite(use) then [use] else []
  {
    PollsOnlyPoll(stream, from, |polls|);
    UseIsDisciplined(polls, use);
    assert (polls + [use])[..|polls|] == polls;
  }

  // ------------------------------------------------------------- classification

  /** The verdict on the bytes received until a read timed out or sufficed. */
  function Classify(bytes: seq<u8>): DeviceStatus {
    if bytes == [] then NotConnected
    else if bytes[0] == 0xFC || |bytes| == 1 then SelfCheckFail
    else if Join(bytes[0], bytes[1]) == 0xAAFA || Join(bytes[0], bytes[1]) == 0xFAAA then Okay
    else SelfCheckFail
  }

  /** The id in the bytes after the first two; missing bytes count as zero. */
  function DeviceId(bytes: seq<u8>): u16 {
    Join(if |bytes| > 2 then bytes[2] else 0, if |bytes| > 3 then bytes[3] else 0)
  }

  function TypeAfter(bytes: seq<u8>, before: DeviceType): DeviceType {
    if Classify(bytes) != Okay then before else if DeviceId(bytes) == 0 then Type00 else Unknown
  }

  /** A device is okay exactly after FA and AA in either order, not connected exactly
      without an answer, and never reported without an id. */
  lemma ClassifyIff(bytes: seq<u8>)
    ensures Classify(bytes) == Okay <==> |bytes| >= 2 && multiset(bytes[..2]) == multiset{0xFA, 0xAA}
    ensures Classify(bytes) == NotConnected <==> bytes == []
    ensures Classify(bytes) != NoDeviceId
  {
    if |bytes| >= 2 {
      var a, b := bytes[0], bytes[1];
      assert bytes[..2] == [a, b];
      assert multiset(bytes[..2]) == multiset{a, b};
      if multiset{a, b} == multiset{0xFA, 0xAA} {
        assert 0xFA in multiset{a, b} && 0xAA in multiset{a, b};
      }
    }
  }

  /** A device that passed is a type 00 mouse exactly if no id byte is nonzero; a
      device without an id is taken for one, too. */
  lemma Type00Iff(bytes: seq<u8>, before: DeviceType)
    requires Classify(bytes) == Okay && |bytes| <= 4
    ensures TypeAfter(bytes, before) == Type00 <==> forall i :: 2 <= i < |bytes| ==> bytes[i] == 0
  {
  }

  /** A trace that ends with 10000 polls in a row that found no byte, and one more. */
  predicate GaveUp(t: seq<Access>) {
    && |t| > OUTPUT_POLLS
    && forall i :: |t| - 1 - OUTPUT_POLLS <= i < |t| - 1 ==> t[i].StatusRead? && !OutputReady(t[i].value)
  }

  /** A trace that ends with 100000000 polls in a row that found no room, and one more. */
  predicate Refused(t: seq<Access>) {
    && |t| > INPUT_POLLS
    && forall i :: |t| - 1 - INPUT_POLLS <= i < |t| - 1 ==> t[i].StatusRead? && !InputReady(t[i].value)
  }

  lemma RefusedLater(t: seq<Access>, more: seq<Access>)
    requires Refused(more)
    ensures Refused(t + more)
  {
    var u := t + more;
    assert forall i :: |t| <= i < |u| ==> u[i] == more[i - |t|];
  }

  lemma RefusedPolls(stream: nat -> u8, from: nat, polls: seq<Access>)
    requires polls == Polls(stream, from, |polls|) && |polls| == INPUT_POLLS + 1
    requires !exists k :: 0 <= k < INPUT_POLLS && InputReadyAt(stream, from, k)
    ensures Refused(polls)
  {
    forall i | 0 <= i < INPUT_POLLS ensures polls[i].StatusRead? && !InputReady(polls[i].value) {
      assert !InputReadyAt(stream, from, i);
    }
  }

  lemma FruitlessPolls(stream: nat -> u8, from: nat, polls: seq<Access>)
    requires polls == Polls(stream, from, |polls|) && |polls| == OUTPUT_POLLS + 1
    requires !exists k :: 0 <= k < OUTPUT_POLLS && OutputReadyAt(stream, from, k)
    ensures GaveUp(polls)
  {
    forall i | 0 <= i < OUTPUT_POLLS ensures polls[i].StatusRead? && !OutputReady(polls[i].value) {
      assert !OutputReadyAt(stream, from, i);
    }
  }

  /** What an attempt to send writes and receives: the whole sequence, or only its
      beginning, up to a wait that was refused. */
  predicate Sending(t: seq<Access>, isPort1: bool, data: u8, error: Error) {
    && Received(t) == [] && |t| <= WRITE_LIMIT
    && Written(t) <= SendSequence(isPort1, data)
    && (error == NoError <==> Written(t) == SendSequence(isPort1, data))
    && (error == Timeout ==> Refused(t))
  }

  /** How many bytes the exchange reads when none is missing. */
  function Wanted(bytes: seq<u8>): nat {
    if bytes != [] && bytes[0] == 0xFC then 1
    else if |bytes| >= 2 && Classify(bytes) != Okay then 2
    else 4
  }

  /** A device judged by the bytes received, and no read left out without giving up. */
  ghost predicate Judged(status: DeviceStatus, kind: DeviceType, before: DeviceType, bytes: seq<u8>,
                         added: seq<Access>) {
    && status == Classify(bytes) && kind == TypeAfter(bytes, before)
    && |bytes| <= Wanted(bytes) <= 4 && (|bytes| < Wanted(bytes) ==> GaveUp(added))
  }

  lemma JudgedEarly(bytes: seq<u8>, kind: DeviceType, added: seq<Access>)
    requires |bytes| < 2 && (GaveUp(added) || bytes == [0xFC])
    ensures Judged(if bytes == [] then NotConnected else SelfCheckFail, kind, kind, bytes, added)
  {
  }

  lemma JudgedByResponse(a: u8, b: u8, kind: DeviceType, added: seq<Access>)
    requires a != 0xFC && Join(a, b) != 0xAAFA && Join(a, b) != 0xFAAA
    ensures Judged(SelfCheckFail, kind, kind, [a, b], added)
  {
  }

  lemma JudgedById(bytes: seq<u8>, before: DeviceType, added: seq<Access>)
    requires 2 <= |bytes| <= 4 && (|bytes| < 4 ==> GaveUp(added))
    requires bytes[0] != 0xFC && (Join(bytes[0], bytes[1]) == 0xAAFA || Join(bytes[0], bytes[1]) == 0xFAAA)
    ensures Judged(Okay, if DeviceId(bytes) == 0 then Type00 else Unknown, before, bytes, added)
  {
  }

  // --------------------------------------------------------------- the controller

  class Controller {
    const status: nat -> u8
    const data: nat -> u8
    var polled: nat
    var taken: nat
    ghost var trace: seq<Access>

    constructor (status: nat -> u8, data: nat -> u8)
      ensures this.status == status && this.data == data && polled == 0 && taken == 0 && trace == []
    {
      this.status, this.data, polled, taken, trace := status, data, 0, 0, [];
    }

    method ReadStatus() returns (v: u8)
      modifies this
      ensures v == status(old(polled)) && polled == old(polled) + 1 && taken == old(taken)
      ensures trace == old(trace) + [StatusRead(v)]
    {
      v := status(polled);
      polled, trace := polled + 1, trace + [StatusRead(v)];
    }

    method ReadData() returns (v: u8)
      modifies this
      ensures v == data(old(taken)) && taken == old(taken) + 1 && polled == old(polled)
      ensures trace == old(trace) + [DataRead(v)]
    {
      v := data(taken);
      taken, trace := taken + 1, trace + [DataRead(v)];
    }

    method WriteData(v: u8)
      modifies this`trace
      ensures trace == old(trace) + [DataWrite(v)]
    {
      trace := trace + [DataWrite(v)];
    }

    method WriteCommand(v: u8)
      modifies this`trace
      ensures trace == old(trace) + [CommandWrite(v)]
    {
      trace := trace + [CommandWrite(v)];
    }

    /** `ps2_wait_input_ready`: no error exactly if one of the first 100000000 polls
        finds the controller ready; one more poll is made before giving up. */
    method WaitInputReady() returns (error: Error, ghost added: seq<Access>)
      modifies this
      ensures trace == old(trace) + added && added == Polls(status, old(polled), |added|)
      ensures 0 < |added| <= INPUT_POLLS + 1 && polled == old(polled) + |added| && taken == old(taken)
      ensures error == NoError <==> exists k :: 0 <= k < INPUT_POLLS && InputReadyAt(status, old(polled), k)
      ensures error == NoError ==> InputReady(added[|added| - 1].value)
      ensures error == Timeout ==> |added| == INPUT_POLLS + 1
    {
      var timeout := INPUT_POLLS;
      added := [];
      while true
        invariant 0 <= timeout <= INPUT_POLLS && |added| == INPUT_POLLS - timeout
        invariant trace == old(trace) + added && added == Polls(status, old(polled), |added|)
        invariant polled == old(polled) + |added| && taken == old(taken)
        invariant forall k :: 0 <= k < |added| ==> !InputReadyAt(status, old(polled), k)
        decreases timeout
      {
        var v := ReadStatus();
        assert InputReady(v) == InputReadyAt(status, old(polled), |added|);
        added := added + [StatusRead(v)];
        if InputReady(v) {
          break;
        }
        timeout := timeout - 1;
        if !(timeout + 1 > 0) {
          break;
        }
      }
      error := if timeout <= 0 then Timeout else NoError;
    }

    /** `ps2_wait_output_ready`, with 10000 polls. */
    method WaitOutputReady() returns (error: Error, ghost added: seq<Access>)
      modifies this
      ensures trace == old(trace) + added && added == Polls(status, old(polled), |added|)
      ensures 0 < |added| <= OUTPUT_POLLS + 1 && polled == old(polled) + |added| && taken == old(taken)
      ensures error == NoError <==> exists k :: 0 <= k < OUTPUT_POLLS && OutputReadyAt(status, old(polled), k)
      ensures error == NoError ==> OutputReady(added[|added| - 1].value)
      ensures error == Timeout ==> |added| == OUTPUT_POLLS + 1
    {
      var timeout := OUTPUT_POLLS;
      added := [];
      while true
        invariant 0 <= timeout <= OUTPUT_POLLS && |added| == OUTPUT_POLLS - timeout
        invariant trace == old(trace) + added && added == Polls(status, old(polled), |added|)
        invariant polled == old(polled) + |added| && taken == old(taken)
        invariant forall k :: 0 <= k < |added| ==> !OutputReadyAt(status, old(polled), k)
        decreases timeout
      {
        var v := ReadStatus();
        assert OutputReady(v) == OutputReadyAt(status, old(polled), |added|);
        added := added + [StatusRead(v)];
        if OutputReady(v) {
          break;
        }
        timeout := timeout - 1;
        if !(timeout + 1 > 0) {
          break;
        }
      }
      error := if timeout <= 0 then Timeout else NoError;
    }
  }

  class Device {
    var kind: DeviceType
    var status: DeviceStatus
    const isPort1: bool

    constructor (isPort1: bool)
      ensures this.isPort1 == isPort1 && kind == Unknown && status == NotConnected
    {
      this.isPort1, kind, status := isPort1, Unknown, NotConnected;
    }
  }

  /** The steps `ps2_device_write_data` makes once or twice: wait, then write. */
  method WriteWhenReady(ports: Controller, use: Access) returns (error: Error, ghost added: seq<Access>)
    requires IsWrite(use)
    modifies ports
    ensures ports.trace == old(ports.trace) + added && ports.taken == old(ports.taken)
    ensures Disciplined(added) && Received(added) == [] && |added| <= INPUT_POLLS + 2
    ensures error == NoError <==> exists k :: 0 <= k < INPUT_POLLS && InputReadyAt(ports.status, old(ports.polled), k)
    ensures Written(added) == if error == NoError then [use] else []
    ensures error == Timeout ==> Refused(added)
  {
    ghost var from := ports.polled;
    error, added := ports.WaitInputReady();
    if error != NoError {
      PollsOnlyPoll(ports.status, from, |added|);
      RefusedPolls(ports.status, from, added);
      return;
    }
    if use.CommandWrite? {
      ports.WriteCommand(use.value);
    } else {
      ports.WriteData(use.value);
    }
    UseAfterPolls(ports.status, from, added, use);
    TraceAppend(old(ports.trace), added, [use]);
    added := added + [use];
  }

  /** `ps2_device_write_data`: the whole sequence without an error, and otherwise
      only its beginning, up to a wait that was refused. */
  method DeviceWriteData(ports: Controller, device: Device, data: u8) returns (error: Error, ghost added: seq<Access>)
    modifies ports
    ensures ports.trace == old(ports.trace) + added && ports.taken == old(ports.taken)
    ensures Disciplined(added) && Sending(added, device.isPort1, data, error)
  {
    ghost var first;
    if !device.isPort1 {
      error, first := WriteWhenReady(ports, CommandWrite(0xD4));
      if error != NoError {
        added := first;
        return;
      }
    }
    error, added := WriteWhenReady(ports, DataWrite(data));
    if !device.isPort1 {
      WritesConcat(first, added, DataWrite(data));
      TraceAppend(old(ports.trace), first, added);
      if error != NoError {
        RefusedLater(first, added);
      }
      added := first + added;
    }
  }

  /** `ps2_device_read_data` */
  method DeviceReadData(ports: Controller) returns (error: Error, data: u8, ghost added: seq<Access>)
    modifies ports
    ensures ports.trace == old(ports.trace) + added && |added| <= OUTPUT_POLLS + 2
    ensures Disciplined(added) && Written(added) == []
    ensures error == NoError <==> exists k :: 0 <= k < OUTPUT_POLLS && OutputReadyAt(ports.status, old(ports.polled), k)
    ensures error == NoError ==> Received(added) == [data] && data == ports.data(old(ports.taken))
    ensures error == Timeout ==> Received(added) == [] && GaveUp(added)
    ensures ports.taken == old(ports.taken) + |Received(added)|
  {
    ghost var from := ports.polled;
    error, added := ports.WaitOutputReady();
    data := 0;
    if error != NoError {
      PollsOnlyPoll(ports.status, from, |added|);
      FruitlessPolls(ports.status, from, added);
      return;
    }
    data := ports.ReadData();
    UseAfterPolls(ports.status, from, added, DataRead(data));
    TraceAppend(old(ports.trace), added, [DataRead(data)]);
    added := added + [DataRead(data)];
  }

  /** A moment of the reading half of the reset exchange: the accesses since its start,
      none of them a write, and the bytes received in them. */
  ghost predicate Exchanged(trace: seq<Access>, start: seq<Access>, added: seq<Access>, bytes: seq<u8>, limit: nat) {
    trace == start + added && Disciplined(added) && Written(added) == [] && Received(added) == bytes && |added| <= limit
  }

  /** One read of the reset exchange. */
  method NextByte(ports: Controller, ghost start: seq<Access>, ghost soFar: seq<Access>, ghost bytes: seq<u8>,
                  ghost limit: nat)
    returns (error: Error, data: u8, ghost added: seq<Access>)
    requires Exchanged(ports.trace, start, soFar, bytes, limit)
    modifies ports
    ensures Exchanged(ports.trace, start, added, if error == NoError then bytes + [data] else bytes, limit + READ_LIMIT)
    ensures error == Timeout ==> GaveUp(added)
  {
    ghost var more;
    error, data, more := DeviceReadData(ports);
    ReadsConcat(soFar, more, data);
    TraceAppend(start, soFar, more);
    added := soFar + more;
  }

  /** The end of the exchange: the device id, of at most two bytes. */
  method ReadId(ports: Controller, ghost start: seq<Access>, ghost soFar: seq<Access>, ghost a: u8, ghost b: u8,
                ghost limit: nat)
    returns (id: u16, ghost added: seq<Access>, ghost all: seq<u8>)
    requires Exchanged(ports.trace, start, soFar, [a, b], limit)
    modifies ports
    ensures Exchanged(ports.trace, start, added, all, limit + 2 * READ_LIMIT)
    ensures 2 <= |all| <= 4 && all[0] == a && all[1] == b && id == DeviceId(all) && (|all| < 4 ==> GaveUp(added))
  {
    var id1: u8, id2: u8 := 0, 0;
    all := [a, b];
    var error, out;
    error, out, added := NextByte(ports, start, soFar, all, limit);
    if error != Timeout {
      id1, all := out, all + [out];
      error, out, added := NextByte(ports, start, added, all, limit + READ_LIMIT);
      if error != Timeout {
        id2, all := out, all + [out];
      }
    }
    id := Join(id1, id2);
  }

  /** The part of `ps2_reset_device` after the reset byte. */
  method JudgeDevice(ports: Controller, device: Device) returns (ghost replies: seq<Access>, ghost bytes: seq<u8>)
    modifies ports, device
    ensures Exchanged(ports.trace, old(ports.trace), replies, bytes, 4 * READ_LIMIT)
    ensures Judged(device.status, device.kind, old(device.kind), bytes, replies)
  {
    ghost var start, before := ports.trace, device.kind;
    bytes := [];
    var error, out;
    error, out, replies := DeviceReadData(ports);
    if error == Timeout {
      JudgedEarly(bytes, before, replies);
      device.status := NotConnected;
      return;
    }
    var response: u16 := out;
    ghost var first := out;
    bytes := [first];
    if response == 0xFC {
      JudgedEarly(bytes, before, replies);
      device.status := SelfCheckFail;
      return;
    }

    error, out, replies := NextByte(ports, start, replies, bytes, READ_LIMIT);
    if error == Timeout {
      JudgedEarly(bytes, before, replies);
      device.status := SelfCheckFail;
      return;
    }
    response := response + 0x100 * out as int;
    bytes := [first, out];
    if !(response == 0xAAFA || response == 0xFAAA) {
      JudgedByResponse(first, out, before, replies);
      device.status := SelfCheckFail;
      return;
    }

    var id;
    id, replies, bytes := ReadId(ports, start, replies, first, out, 2 * READ_LIMIT);
    JudgedById(bytes, before, replies);
    device.status := Okay;
    device.kind := if id == 0 then Type00 else Unknown;
  }

  /** `ps2_reset_device`: against any controller all accesses are disciplined. It sends
      the reset byte or is refused, and reads on in both cases: at most four bytes, and
      fewer than it wants only after giving up. They alone decide status and type. */
  method ResetDevice(ports: Controller, device: Device)
    returns (ghost request: seq<Access>, ghost replies: seq<Access>, ghost bytes: seq<u8>)
    modifies ports, device
    ensures ports.trace == old(ports.trace) + (request + replies) && Disciplined(request + replies)
    ensures exists error :: Sending(request, device.isPort1, 0xFF, error)
    ensures Written(replies) == [] && Received(replies) == bytes && |replies| <= 4 * READ_LIMIT
    ensures Judged(device.status, device.kind, old(device.kind), bytes, replies)
  {
    ghost var start := ports.trace;
    device.status := NotConnected;
    var ignored;
    ignored, request := DeviceWriteData(ports, device, 0xFF);
    replies, bytes := JudgeDevice(ports, device);
    DisciplinedConcat(request, replies);
    TraceAppend(start, request, replies);
  }
}
