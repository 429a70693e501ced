/** The inter-core ring buffers (include/ipc_ring_buffer.hh), sequential
    semantics only: a SensorBuffer is a four-slot ring indexed by head
    (next write) and tail (next read) modulo 4, so it holds at most three
    messages; the IpcMessageManager routes camera and ToF messages to one
    buffer each. */
module IpcRingBuffer {
  import opened Wrappers
  import opened Ticks

  type Byte = x: int | 0 <= x < 256
  type Payload = seq<Byte>

  /** kSlots: slots in the ring; one always stays free to tell full from empty. */
  const Slots: nat := 4

  /** A buffer with its per-message size limit (the BufferSize template
      argument), its slots (each the bytes last copied into it, so the
      stored size is the slot's length) and its head and tail indices. */
  datatype SensorBuffer = SensorBuffer(bufferSize: nat, slots: seq<Payload>, head: nat, tail: nat)

  predicate Valid(b: SensorBuffer) {
    |b.slots| == Slots && b.head < Slots && b.tail < Slots
  }

  /** A freshly constructed buffer: indices zero. */
  function NewBuffer(bufferSize: nat): (b: SensorBuffer)
    ensures Valid(b) && Contents(b) == [] && b.bufferSize == bufferSize
  {
    SensorBuffer(bufferSize, [[], [], [], []], 0, 0)
  }

  /** Number of messages held: (head - tail) mod kSlots. */
  function Size(b: SensorBuffer): (n: nat)
    requires Valid(b)
    ensures n < Slots
  {
    (b.head - b.tail) % Slots
  }

  /** The messages held, oldest first: the slots from tail up to (not including) head. */
  function Contents(b: SensorBuffer): (q: seq<Payload>)
    requires Valid(b)
    ensures |q| == Size(b)
  {
    seq(Size(b), i requires 0 <= i < Size(b) => b.slots[(b.tail + i) % Slots])
  }

  datatype PushResult = PushResult(ok: bool, buffer: SensorBuffer)

  /** push: refuse a message larger than the buffer size, refuse when the
      next head would meet the tail (full), otherwise copy the message into
      the head slot and advance head. */
  function Push(b: SensorBuffer, data: Payload): (r: PushResult)
    requires Valid(b)
    ensures Valid(r.buffer) && r.buffer.bufferSize == b.bufferSize
    ensures r.ok <==> |data| <= b.bufferSize && |Contents(b)| < Slots - 1
    ensures r.ok ==> Contents(r.buffer) == Contents(b) + [data]
    ensures !r.ok ==> r.buffer == b
  {
    if |data| > b.bufferSize then PushResult(false, b)
    else
      var next := (b.head + 1) % Slots;
      if next == b.tail then PushResult(false, b)
      else
        var b' := b.(slots := b.slots[b.head := data], head := next);
        PushContents(b, data, b');
        PushResult(true, b')
  }

  lemma PushContents(b: SensorBuffer, data: Payload, b': SensorBuffer)
    requires Valid(b) && (b.head + 1) % Slots != b.tail
    requires b' == b.(slots := b.slots[b.head := data], head := (b.head + 1) % Slots)
    ensures Valid(b') && Size(b') == Size(b) + 1
    ensures Contents(b') == Contents(b) + [data]
  {
    assert Size(b') == Size(b) + 1;
    forall i | 0 <= i < Size(b) ensures Contents(b')[i] == Contents(b)[i] {
      assert (b.tail + i) % Slots != b.head;
    }
    assert (b.tail + Size(b)) % Slots == b.head;
  }

  datatype PopResult = PopResult(data: Option<Payload>, buffer: SensorBuffer)

  /** pop: fail when head equals tail (empty), otherwise hand out the tail
      slot's message and advance tail. */
  function Pop(b: SensorBuffer): (r: PopResult)
    requires Valid(b)
    ensures Valid(r.buffer) && r.buffer.bufferSize == b.bufferSize
    ensures r.data.None? <==> Contents(b) == []
    ensures r.data.None? ==> r.buffer == b
    ensures r.data.Some? ==> r.data.value == Contents(b)[0] && Contents(r.buffer) == Contents(b)[1..]
  {
    if b.tail == b.head then PopResult(None, b)
    else
      var b' := b.(tail := (b.tail + 1) % Slots);
      PopContents(b, b');
      PopResult(Some(b.slots[b.tail]), b')
  }

  lemma PopContents(b: SensorBuffer, b': SensorBuffer)
    requires Valid(b) && b.tail != b.head
    requires b' == b.(tail := (b.tail + 1) % Slots)
    ensures Valid(b') && Size(b') == Size(b) - 1
    ensures Contents(b)[0] == b.slots[b.tail]
    ensures Contents(b') == Contents(b)[1..]
  {
    if b.tail == Slots - 1 {
      assert b'.tail == 0;
    } else {
      assert b'.tail == b.tail + 1;
    }
    assert Size(b') == Size(b) - 1;
    forall i | 0 <= i < Size(b') ensures Contents(b')[i] == Contents(b)[1..][i] {
      assert (b'.tail + i) % Slots == (b.tail + (i + 1)) % Slots;
    }
  }

  /** clear: both indices back to zero, so nothing is held. */
  function Clear(b: SensorBuffer): (r: SensorBuffer)
    requires Valid(b)
    ensures Valid(r) && Contents(r) == [] && r.bufferSize == b.bufferSize
  {
    b.(head := 0, tail := 0)
  }

  /** Operations a single producer and a single consumer issue. */
  datatype Op = PushOp(data: Payload) | PopOp | ClearOp

  /** What each operation reports back. */
  datatype Outcome = Pushed(ok: bool) | Popped(data: Option<Payload>) | Cleared

  /** Outcomes of running `ops` on the ring buffer. */
  function RunBuffer(b: SensorBuffer, ops: seq<Op>): seq<Outcome>
    requires Valid(b)
    decreases |ops|
  {
    if |ops| == 0 then []
    else match ops[0]
      case PushOp(data) => var r := Push(b, data); [Pushed(r.ok)] + RunBuffer(r.buffer, ops[1..])
      case PopOp => var r := Pop(b); [Popped(r.data)] + RunBuffer(r.buffer, ops[1..])
      case ClearOp => [Cleared] + RunBuffer(Clear(b), ops[1..])
  }

  /** Reference behaviour: a FIFO queue of at most three messages, each no
      larger than `limit`. */
  function RunQueue(q: seq<Payload>, limit: nat, ops: seq<Op>): seq<Outcome>
    decreases |ops|
  {
    if |ops| == 0 then []
    else match ops[0]
      case PushOp(data) =>
        if |data| <= limit && |q| < Slots - 1 then [Pushed(true)] + RunQueue(q + [data], limit, ops[1..])
        else [Pushed(false)] + RunQueue(q, limit, ops[1..])
      case PopOp =>
        if |q| == 0 then [Popped(None)] + RunQueue(q, limit, ops[1..])
        else [Popped(Some(q[0]))] + RunQueue(q[1..], limit, ops[1..])
      case ClearOp => [Cleared] + RunQueue([], limit, ops[1..])
  }

  /** The ring buffer behaves exactly as the bounded FIFO queue: pops return
      the payloads (and so the sizes) of successful pushes, in push order,
      and pushes fail exactly when the message is too large or three are held. */
  lemma {:induction false} BufferIsFifo(b: SensorBuffer, ops: seq<Op>)
    requires Valid(b)
    ensures RunBuffer(b, ops) == RunQueue(Contents(b), b.bufferSize, ops)
    decreases |ops|
  {
    if |ops| > 0 {
      match ops[0]
      case PushOp(data) =>
        BufferIsFifo(Push(b, data).buffer, ops[1..]);
      case PopOp =>
        BufferIsFifo(Pop(b).buffer, ops[1..]);
      case ClearOp =>
        BufferIsFifo(Clear(b), ops[1..]);
    }
  }

  /** Message types; only camera and ToF messages have a buffer. */
  datatype SensorType = Camera | Tof | Ack

  const CameraBufferSize: nat := 4096
  const TofBufferSize: nat := 512

  /** The manager: one buffer per routed sensor type and the next sequence number. */
  datatype Manager = Manager(camera: SensorBuffer, tof: SensorBuffer, nextSequence: U32)

  predicate ManagerValid(m: Manager) {
    Valid(m.camera) && Valid(m.tof) &&
    m.camera.bufferSize == CameraBufferSize && m.tof.bufferSize == TofBufferSize
  }

  function NewManager(): (m: Manager)
    ensures ManagerValid(m) && Contents(m.camera) == [] && Contents(m.tof) == [] && m.nextSequence == 0
  {
    Manager(NewBuffer(CameraBufferSize), NewBuffer(TofBufferSize), 0)
  }

  datatype SendResult = SendResult(ok: bool, manager: Manager)

  /** sendMessage: take a sequence number (wrapping at 2^32) whatever happens,
      then push to the camera or ToF buffer; any other type fails and
      touches no buffer. The other buffer never changes. */
  function SendMessage(m: Manager, t: SensorType, data: Payload): (r: SendResult)
    requires ManagerValid(m)
    ensures ManagerValid(r.manager)
    ensures r.manager.nextSequence == (m.nextSequence + 1) % 0x1_0000_0000
    ensures t == Camera ==>
      && r.manager.tof == m.tof
      && (r.ok <==> |data| <= CameraBufferSize && |Contents(m.camera)| < Slots - 1)
      && Contents(r.manager.camera) == (if r.ok then Contents(m.camera) + [data] else Contents(m.camera))
    ensures t == Tof ==>
      && r.manager.camera == m.camera
      && (r.ok <==> |data| <= TofBufferSize && |Contents(m.tof)| < Slots - 1)
      && Contents(r.manager.tof) == (if r.ok then Contents(m.tof) + [data] else Contents(m.tof))
    ensures t == Ack ==> !r.ok && r.manager.camera == m.camera && r.manager.tof == m.tof
  {
    var m' := m.(nextSequence := (m.nextSequence + 1) % 0x1_0000_0000);
    match t
    case Camera => var p := Push(m.camera, data); SendResult(p.ok, m'.(camera := p.buffer))
    case Tof => var p := Push(m.tof, data); SendResult(p.ok, m'.(tof := p.buffer))
    case Ack => SendResult(false, m')
  }

  datatype ReceiveResult = ReceiveResult(data: Option<Payload>, manager: Manager)

  /** receiveMessage: pop from the camera or ToF buffer; any other type
      fails and touches nothing. The other buffer never changes. */
  function ReceiveMessage(m: Manager, t: SensorType): (r: ReceiveResult)
    requires ManagerValid(m)
    ensures ManagerValid(r.manager) && r.manager.nextSequence == m.nextSequence
    ensures t == Camera ==>
      && r.manager.tof == m.tof
      && (r.data.None? <==> Contents(m.camera) == [])
      && (r.data.Some? ==> r.data.value == Contents(m.camera)[0] && Contents(r.manager.camera) == Contents(m.camera)[1..])
    ensures t == Tof ==>
      && r.manager.camera == m.camera
      && (r.data.None? <==> Contents(m.tof) == [])
      && (r.data.Some? ==> r.data.value == Contents(m.tof)[0] && Contents(r.manager.tof) == Contents(m.tof)[1..])
    ensures t == Ack ==> r.data.None? && r.manager == m
  {
    match t
    case Camera => var p := Pop(m.camera); ReceiveResult(p.data, m.(camera := p.buffer))
    case Tof => var p := Pop(m.tof); ReceiveResult(p.data, m.(tof := p.buffer))
    case Ack => ReceiveResult(None, m)
  }

  /** clear: both buffers emptied; the sequence number is kept. */
  function ClearManager(m: Manager): (r: Manager)
    requires ManagerValid(m)
    ensures ManagerValid(r) && Contents(r.camera) == [] && Contents(r.tof) == []
    ensures r.nextSequence == m.nextSequence
  {
    Manager(Clear(m.camera), Clear(m.tof), m.nextSequence)
  }
}
