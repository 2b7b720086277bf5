/** The host half of an SPI session, composed with the device. */
module SpiHost {
  import opened ControlTypes
  import opened ControlCore
  import opened Commands
  import opened Frames
  import opened SpiMachine
  import opened SpiTransactions

  /** How transaction number `k`, clocking out `bytes`, turns into device events. */
  type Bus = (nat, seq<byte>) -> seq<Event>

  /**
   * The device is given the bytes in order and asked for at least as many; in a transaction of four bytes or more it
   * is asked at least once after the third.
   */
  predicate Carries(events: seq<Event>, bytes: seq<byte>) {
    && SuppliedBytes(events) == bytes
    && Polls(events) >= |bytes|
    && (|bytes| >= 4 ==> PolledAfterHeader(events))
  }

  ghost predicate GoodBus(bus: Bus) {
    forall k, bytes :: Carries(bus(k, bytes), bytes)
  }

  datatype Link = Link(core: Core, spi: Spi, count: nat)

  /** A full-duplex transfer: the host receives the first answers, one per byte. */
  function Transfer(bus: Bus, link: Link, bytes: seq<byte>): (Link, seq<byte>) {
    var t := Run(link.core, link.spi, bus(link.count, bytes));
    var e := OnEnd(t.core, t.spi);
    (Link(e.core, e.spi, link.count + 1), Fit(t.answers, |bytes|))
  }

  datatype HostResult = HostResult(link: Link, ret: byte, data: seq<byte>)

  /** The second transaction of a read is at least eight bytes long. */
  function Padded(length: nat): nat {
    if length < 8 then 8 else length
  }

  /** `payload` is the caller's buffer, which is sent along when the code has no read bit. */
  function HostRead(bus: Bus, link: Link, resid: byte, cmd: byte, payload: seq<byte>, length: nat): (r: HostResult)
    requires length <= |payload|
    ensures r.ret == SUCCESS && |r.data| == length
  {
    var sent := Transfer(bus, link, SpiFrame(resid, cmd, Some(payload), length)).0;
    var (after, received) := Transfer(bus, sent, Zeros(Padded(length)));
    HostResult(after, SUCCESS, received[..length])
  }

  function StatusRead(bus: Bus, link: Link): HostResult {
    HostRead(bus, link, SPECIAL_RESID, GET_LAST_COMMAND_STATUS, Zeros(1), 1)
  }

  function HostWrite(bus: Bus, link: Link, resid: byte, cmd: byte, payload: Option<seq<byte>>, length: nat): HostResult
    requires Holds(payload, length)
  {
    var sent := Transfer(bus, link, SpiFrame(resid, cmd, payload, length)).0;
    var status := StatusRead(bus, sent);
    HostResult(status.link, if status.ret != SUCCESS then ERROR else status.data[0], [])
  }

  // ----- Each host call is one atomic operation -----

  predicate AtRest(link: Link) {
    link.spi == INITIAL && Ready(link.core)
  }

  lemma ZerosChangeNothing(core: Core, events: seq<Event>, n: nat)
    requires Ready(core) && SuppliedBytes(events) == Zeros(n) && n >= 4
    ensures var t := Run(core, INITIAL, events);
            var e := OnEnd(t.core, t.spi);
            e.core == core && e.spi == INITIAL && t.answers == Zeros(Polls(events))
  {
    WritePhase(core, events);
    WriteIsAllOrNothing(core, events);
  }

  /** The data transaction of a machine at rest. */
  lemma ZerosTransfer(bus: Bus, link: Link, length: nat)
    requires GoodBus(bus) && AtRest(link)
    ensures var (after, received) := Transfer(bus, link, Zeros(Padded(length)));
            after == link.(count := link.count + 1) && received[..length] == Zeros(length)
  {
    var zeros := Zeros(Padded(length));
    assert Carries(bus(link.count, zeros), zeros);
    ZerosChangeNothing(link.core, bus(link.count, zeros), |zeros|);
  }

  /** One transaction that begins no read, over the bus. */
  lemma WriteTransfer(bus: Bus, link: Link, frame: seq<byte>)
    requires GoodBus(bus) && AtRest(link) && NoRead(link.core.table, frame)
    ensures var sent := Transfer(bus, link, frame).0;
            && AtRest(sent)
            && sent.core == if |frame| >= 3 && |frame| - 3 == frame[2] <= DATA_MAX_BYTES then
                              AtomicWrite(link.core, frame[0], frame[1], frame[3..]).core
                            else
                              link.core
  {
    var events := bus(link.count, frame);
    assert Carries(events, frame);
    WriteIsAllOrNothing(link.core, events);
  }

  /** The header transaction of a read of a known resource. */
  lemma HeaderTransfer(bus: Bus, link: Link, resid: byte, cmd: byte, payload: Option<seq<byte>>, length: nat)
    requires GoodBus(bus) && AtRest(link) && Holds(payload, length) && length <= TRANSACTION_MAX_BYTES
    requires ReadHeader(link.core, resid, cmd, length % 256)
    ensures var sent := Transfer(bus, link, SpiFrame(resid, cmd, payload, length)).0;
            && sent.core == AtomicRead(link.core, resid, cmd, length % 256).core
            && sent.spi == Holding(link.core, resid, cmd, length % 256)
  {
    var frame := SpiFrame(resid, cmd, payload, length);
    assert Carries(bus(link.count, frame), frame);
    assert frame == [resid, cmd, length % 256] + Zeros(5);
    HeaderTransactionReads(link.core, bus(link.count, frame), resid, cmd, length % 256, 5);
  }

  /** The data transaction of a machine that holds an answer. */
  lemma DataTransfer(bus: Bus, link: Link, bytes: seq<byte>)
    requires GoodBus(bus) && link.spi.state == ReadData && link.spi.sent == 0
    ensures var (after, received) := Transfer(bus, link, bytes);
            && after == Link(link.core, INITIAL, link.count + 1) && |received| == |bytes|
            && forall k :: 0 <= k < |bytes| ==>
                 received[k] == if k < Capacity(link.spi.declared) then link.spi.payload[k] else 0
  {
    assert Carries(bus(link.count, bytes), bytes);
    DataTransactionAnswers(link.core, link.spi, bus(link.count, bytes));
  }

  /** Every read that fits the host's and the device's buffers; a length of 256 is sent as zero. */
  lemma HostReadOutcome(bus: Bus, link: Link, resid: byte, cmd: byte, payload: seq<byte>, length: nat)
    requires GoodBus(bus) && AtRest(link) && IsRead(cmd) && length <= |payload| && length <= TRANSACTION_MAX_BYTES
    requires Known(link.core, resid) ==> length % 256 <= DATA_MAX_BYTES
    ensures var r := HostRead(bus, link, resid, cmd, payload, length);
            var atomic := AtomicRead(link.core, resid, cmd, length % 256);
            && AtRest(r.link) && r.link.core == atomic.core && r.ret == SUCCESS
            && r.data == atomic.data + Zeros(length - length % 256)
  {
    var frame := SpiFrame(resid, cmd, Some(payload), length);
    var sent := Transfer(bus, link, frame).0;
    if Known(link.core, resid) {
      HeaderTransfer(bus, link, resid, cmd, Some(payload), length);
      DataTransfer(bus, sent, Zeros(Padded(length)));
    } else {
      WriteTransfer(bus, link, frame);
      ZerosTransfer(bus, sent, length);
    }
  }

  /** For every resource ID, known or not. An unknown one reads as zeros. */
  lemma HostReadIsAtomic(bus: Bus, link: Link, resid: byte, cmd: byte, payload: seq<byte>, length: nat)
    requires GoodBus(bus) && AtRest(link) && IsRead(cmd) && length <= |payload| && length <= DATA_MAX_BYTES
    ensures var r := HostRead(bus, link, resid, cmd, payload, length);
            var atomic := AtomicRead(link.core, resid, cmd, length);
            AtRest(r.link) && r.link.core == atomic.core && r.ret == SUCCESS && r.data == atomic.data
  {
    HostReadOutcome(bus, link, resid, cmd, payload, length);
  }

  /** The host does not set the read bit: without it a read call is a write of the caller's buffer. */
  lemma HostReadWithWriteCode(bus: Bus, link: Link, resid: byte, cmd: byte, payload: seq<byte>, length: nat)
    requires GoodBus(bus) && AtRest(link) && !IsRead(cmd) && length <= |payload| && length <= DATA_MAX_BYTES
    ensures var r := HostRead(bus, link, resid, cmd, payload, length);
            && AtRest(r.link) && r.link.core == AtomicWrite(link.core, resid, cmd, payload[..length]).core
            && r.ret == SUCCESS && r.data == Zeros(length)
  {
    var frame := SpiFrame(resid, cmd, Some(payload), length);
    assert frame[3..] == payload[..length];
    WriteTransfer(bus, link, frame);
    ZerosTransfer(bus, Transfer(bus, link, frame).0, length);
  }

  lemma StatusIsRead(bus: Bus, link: Link)
    requires GoodBus(bus) && AtRest(link)
    ensures var r := StatusRead(bus, link);
            AtRest(r.link) && r.link.core == link.core && r.ret == SUCCESS && r.data == [link.core.lastStatus]
  {
    HostReadIsAtomic(bus, link, SPECIAL_RESID, GET_LAST_COMMAND_STATUS, Zeros(1), 1);
  }

  /** The frame's payload has the declared length: a null payload is padded to five bytes. */
  predicate Delivers(payload: Option<seq<byte>>, length: nat) {
    if payload.Some? then length <= DATA_MAX_BYTES else length == 5
  }

  lemma FrameDelivers(resid: byte, cmd: byte, payload: Option<seq<byte>>, length: nat)
    requires !IsRead(cmd) && Holds(payload, length) && SpiFits(cmd, payload, length)
    ensures var frame := SpiFrame(resid, cmd, payload, length);
            && (|frame| >= 2 ==> frame[1] == cmd)
            && (|frame| >= 3 && |frame| - 3 == frame[2] <= DATA_MAX_BYTES <==> Delivers(payload, length))
            && (Delivers(payload, length) ==> frame[0] == resid && frame[3..] == Announced(payload, length))
  {
    var frame := SpiFrame(resid, cmd, payload, length);
    if Delivers(payload, length) {
      assert frame[3..] == Announced(payload, length);
    }
  }

  /**
   * Every write call whose frame fits: one atomic write of the announced payload if it is delivered, and otherwise
   * nothing at all. The host returns the status register afterwards.
   */
  lemma HostWriteOutcome(bus: Bus, link: Link, resid: byte, cmd: byte, payload: Option<seq<byte>>, length: nat)
    requires GoodBus(bus) && AtRest(link) && !IsRead(cmd) && Holds(payload, length) && SpiFits(cmd, payload, length)
    ensures var r := HostWrite(bus, link, resid, cmd, payload, length);
            && AtRest(r.link)
            && r.link.core == (if Delivers(payload, length) then
                                 AtomicWrite(link.core, resid, cmd, Announced(payload, length)).core
                               else
                                 link.core)
            && r.ret == r.link.core.lastStatus
  {
    var frame := SpiFrame(resid, cmd, payload, length);
    FrameDelivers(resid, cmd, payload, length);
    WriteTransfer(bus, link, frame);
    StatusIsRead(bus, Transfer(bus, link, frame).0);
  }

  /**
   * For every resource ID. The write is the atomic write, and the host gets the status register afterwards:
   * the task's own code for a known resource, but the previous command's for an unknown one.
   */
  lemma HostWriteIsAtomic(bus: Bus, link: Link, resid: byte, cmd: byte, payload: seq<byte>)
    requires GoodBus(bus) && AtRest(link) && !IsRead(cmd) && |payload| <= DATA_MAX_BYTES
    ensures var r := HostWrite(bus, link, resid, cmd, Some(payload), |payload|);
            var atomic := AtomicWrite(link.core, resid, cmd, payload);
            && AtRest(r.link) && r.link.core == atomic.core
            && r.ret == (if Known(link.core, resid) then atomic.ret else link.core.lastStatus)
  {
    HostWriteOutcome(bus, link, resid, cmd, Some(payload), |payload|);
    assert Announced(Some(payload), |payload|) == payload;
  }

  /** With a null payload the builder pads to eight bytes, so only a declared length of five is ever delivered. */
  lemma NullPayloadDeliveredIff(bus: Bus, link: Link, resid: byte, cmd: byte, length: nat)
    requires GoodBus(bus) && AtRest(link) && !IsRead(cmd)
    ensures var calls := HostWrite(bus, link, resid, cmd, None, length).link.core.calls;
            && (calls != link.core.calls <==> length == 5 && Known(link.core, resid) && resid != SPECIAL_RESID)
            && (length == 5 ==> calls == AtomicWrite(link.core, resid, cmd, Zeros(5)).core.calls)
  {
    HostWriteOutcome(bus, link, resid, cmd, None, length);
  }

  /** A write call with the read bit set runs the read; the status read after it gets zeros, a success. */
  lemma HostWriteWithReadCode(bus: Bus, link: Link, resid: byte, cmd: byte, payload: Option<seq<byte>>, length: nat)
    requires GoodBus(bus) && AtRest(link) && IsRead(cmd) && Holds(payload, length)
    requires Known(link.core, resid) && length <= TRANSACTION_MAX_BYTES ==> length % 256 <= DATA_MAX_BYTES
    ensures var r := HostWrite(bus, link, resid, cmd, payload, length);
            && AtRest(r.link)
            && if Known(link.core, resid) && length <= TRANSACTION_MAX_BYTES then
                 r.link.core == AtomicRead(link.core, resid, cmd, length % 256).core && r.ret == SUCCESS
               else
                 r.link.core == link.core && r.ret == link.core.lastStatus
  {
    var frame := SpiFrame(resid, cmd, payload, length);
    var sent := Transfer(bus, link, frame).0;
    if Known(link.core, resid) && length <= TRANSACTION_MAX_BYTES {
      HeaderTransfer(bus, link, resid, cmd, payload, length);
      var header := SpiFrame(SPECIAL_RESID, GET_LAST_COMMAND_STATUS, Some(Zeros(1)), 1);
      DataTransfer(bus, sent, header);
      ZerosTransfer(bus, Transfer(bus, sent, header).0, 1);
    } else {
      WriteTransfer(bus, link, frame);
      StatusIsRead(bus, sent);
    }
  }

  /** A transfer keeps the table, and leaves the machine idle with every field zero or holding an answer. */
  lemma AnyTransfer(bus: Bus, link: Link, bytes: seq<byte>)
    ensures var after := Transfer(bus, link, bytes).0;
            after.core.table == link.core.table && (after.spi == INITIAL || after.spi.state == ReadData)
  {
    RunKeepsTable(link.core, link.spi, bus(link.count, bytes));
    Resynchronises(link.core, link.spi, bus(link.count, bytes), []);
  }

  /** Every read call, from any record, leaves the device at rest. */
  lemma ReadEndsAtRest(bus: Bus, link: Link, resid: byte, cmd: byte, payload: seq<byte>, length: nat)
    requires GoodBus(bus) && Ready(link.core) && length <= |payload|
    ensures AtRest(HostRead(bus, link, resid, cmd, payload, length).link)
  {
    var frame, zeros := SpiFrame(resid, cmd, Some(payload), length), Zeros(Padded(length));
    var sent := Transfer(bus, link, frame).0;
    AnyTransfer(bus, link, frame);
    AnyTransfer(bus, sent, zeros);
    if sent.spi == INITIAL {
      ZerosTransfer(bus, sent, length);
    } else {
      Resynchronises(link.core, link.spi, bus(link.count, frame), bus(sent.count, zeros));
    }
  }

  /** So does every write call: from then on each call is atomic, whatever state the device was found in. */
  lemma WriteEndsAtRest(bus: Bus, link: Link, resid: byte, cmd: byte, payload: Option<seq<byte>>, length: nat)
    requires GoodBus(bus) && Ready(link.core) && Holds(payload, length)
    ensures AtRest(HostWrite(bus, link, resid, cmd, payload, length).link)
  {
    var frame := SpiFrame(resid, cmd, payload, length);
    AnyTransfer(bus, link, frame);
    ReadEndsAtRest(bus, Transfer(bus, link, frame).0, SPECIAL_RESID, GET_LAST_COMMAND_STATUS, Zeros(1), 1);
  }

  lemma VersionQuery(bus: Bus, link: Link, payload: seq<byte>)
    requires GoodBus(bus) && AtRest(link) && |payload| >= 1
    ensures var r := HostRead(bus, link, SPECIAL_RESID, GET_VERSION, payload, 1);
            r.ret == SUCCESS && r.data == [CONTROL_VERSION] && r.link.core == link.core && r.link.spi == INITIAL
  {
    HostReadIsAtomic(bus, link, SPECIAL_RESID, GET_VERSION, payload, 1);
  }

  // ----- When a call stays inside the device's buffer -----

  predicate ReadCallInRange(bus: Bus, link: Link, resid: byte, cmd: byte, payload: seq<byte>, length: nat)
    requires length <= |payload|
  {
    var frame, zeros := SpiFrame(resid, cmd, Some(payload), length), Zeros(Padded(length));
    var sent := Transfer(bus, link, frame).0;
    && AnswersInRange(link.core, link.spi, bus(link.count, frame))
    && AnswersInRange(sent.core, sent.spi, bus(sent.count, zeros))
  }

  predicate WriteCallInRange(bus: Bus, link: Link, resid: byte, cmd: byte, payload: Option<seq<byte>>, length: nat)
    requires Holds(payload, length)
  {
    var frame := SpiFrame(resid, cmd, payload, length);
    var sent := Transfer(bus, link, frame).0;
    && AnswersInRange(link.core, link.spi, bus(link.count, frame))
    && ReadCallInRange(bus, sent, SPECIAL_RESID, GET_LAST_COMMAND_STATUS, Zeros(1), 1)
  }

  /** A read of a known resource whose length is not zero on the wire but exceeds the device's buffer. */
  predicate Oversized(core: Core, resid: byte, cmd: byte, length: nat) {
    ReadCommand(core, resid, cmd) && DATA_MAX_BYTES < length < TRANSACTION_MAX_BYTES
  }

  lemma FrameInRangeIff(bus: Bus, link: Link, resid: byte, cmd: byte, payload: Option<seq<byte>>, length: nat)
    requires GoodBus(bus) && AtRest(link) && Holds(payload, length)
    ensures var frame := SpiFrame(resid, cmd, payload, length);
            AnswersInRange(link.core, INITIAL, bus(link.count, frame)) <==> !Oversized(link.core, resid, cmd, length)
  {
    var frame := SpiFrame(resid, cmd, payload, length);
    var events := bus(link.count, frame);
    assert Carries(events, frame);
    if ReadCommand(link.core, resid, cmd) && length <= TRANSACTION_MAX_BYTES {
      var whole := [resid, cmd, length % 256] + Zeros(5);
      assert frame == whole == whole[..|whole|];
      HeaderInRangeIff(link.core, events, resid, cmd, length % 256, 5);
    } else {
      WriteInRange(link.core, events);
    }
  }

  lemma ZerosInRange(bus: Bus, link: Link, n: nat)
    requires GoodBus(bus) && AtRest(link)
    ensures AnswersInRange(link.core, INITIAL, bus(link.count, Zeros(n)))
  {
    assert Carries(bus(link.count, Zeros(n)), Zeros(n));
    WriteInRange(link.core, bus(link.count, Zeros(n)));
  }

  lemma ReadCallInRangeIff(bus: Bus, link: Link, resid: byte, cmd: byte, payload: seq<byte>, length: nat)
    requires GoodBus(bus) && AtRest(link) && length <= |payload|
    ensures ReadCallInRange(bus, link, resid, cmd, payload, length) <==> !Oversized(link.core, resid, cmd, length)
  {
    var frame := SpiFrame(resid, cmd, Some(payload), length);
    var sent := Transfer(bus, link, frame).0;
    FrameInRangeIff(bus, link, resid, cmd, Some(payload), length);
    if Oversized(link.core, resid, cmd, length) {
    } else if ReadCommand(link.core, resid, cmd) && length <= TRANSACTION_MAX_BYTES {
      HeaderTransfer(bus, link, resid, cmd, Some(payload), length);
      DataInRange(sent.core, sent.spi, bus(sent.count, Zeros(Padded(length))));
    } else {
      WriteTransfer(bus, link, frame);
      ZerosInRange(bus, sent, Padded(length));
    }
  }

  lemma WriteCallInRangeIff(bus: Bus, link: Link, resid: byte, cmd: byte, payload: Option<seq<byte>>, length: nat)
    requires GoodBus(bus) && AtRest(link) && Holds(payload, length)
    ensures WriteCallInRange(bus, link, resid, cmd, payload, length) <==> !Oversized(link.core, resid, cmd, length)
  {
    var frame := SpiFrame(resid, cmd, payload, length);
    var sent := Transfer(bus, link, frame).0;
    FrameInRangeIff(bus, link, resid, cmd, payload, length);
    if Oversized(link.core, resid, cmd, length) {
    } else if ReadCommand(link.core, resid, cmd) && length <= TRANSACTION_MAX_BYTES {
      HeaderTransfer(bus, link, resid, cmd, payload, length);
      var header := SpiFrame(SPECIAL_RESID, GET_LAST_COMMAND_STATUS, Some(Zeros(1)), 1);
      DataInRange(sent.core, sent.spi, bus(sent.count, header));
      DataTransfer(bus, sent, header);
      ZerosInRange(bus, Transfer(bus, sent, header).0, 8);
    } else {
      WriteTransfer(bus, link, frame);
      ReadCallInRangeIff(bus, sent, SPECIAL_RESID, GET_LAST_COMMAND_STATUS, Zeros(1), 1);
    }
  }

  // ----- Sessions -----

  predicate Sendable(c: Command) {
    match c
    case Write(_, cmd, payload) => !IsRead(cmd) && |payload| <= DATA_MAX_BYTES
    case Read(_, cmd, length) => IsRead(cmd) && length <= DATA_MAX_BYTES
  }

  function HostCall(bus: Bus, link: Link, c: Command): HostResult
    requires Sendable(c)
  {
    match c
    case Write(resid, cmd, payload) => HostWrite(bus, link, resid, cmd, Some(payload), |payload|)
    case Read(resid, cmd, length) => HostRead(bus, link, resid, cmd, Zeros(length), length)
  }

  function Session(bus: Bus, link: Link, cs: seq<Command>): (Link, seq<Reported>)
    requires forall c :: c in cs ==> Sendable(c)
    decreases |cs|
  {
    if cs == [] then (link, [])
    else
      var r := HostCall(bus, link, cs[0]);
      var (last, reports) := Session(bus, r.link, cs[1..]);
      (last, [Reported(r.ret, r.data)] + reports)
  }

  function Expected(c: Command, p: Performed): Reported {
    match c
    case Write(resid, _, _) => Reported(if Known(p.before, resid) then p.ret else p.before.lastStatus, [])
    case Read(_, _, _) => Reported(SUCCESS, p.data)
  }

  lemma HostCallIsAtomic(bus: Bus, link: Link, c: Command)
    requires GoodBus(bus) && AtRest(link) && Sendable(c)
    ensures var r := HostCall(bus, link, c);
            var p := Perform(link.core, c);
            AtRest(r.link) && r.link.core == p.after && Reported(r.ret, r.data) == Expected(c, p)
  {
    match c
    case Write(resid, cmd, payload) =>
      assert SetWrite(cmd) == cmd;
      HostWriteIsAtomic(bus, link, resid, cmd, payload);
    case Read(resid, cmd, length) =>
      HostReadIsAtomic(bus, link, resid, cmd, Zeros(length), length);
  }

  /**
   * Main result: over any bus that carries bytes, a session of host calls of any length is the atomic performance of
   * its commands: same task calls in the same order, same status register, and every report as expected.
   */
  lemma {:induction false} SessionIsAtomic(bus: Bus, link: Link, cs: seq<Command>)
    requires GoodBus(bus) && AtRest(link)
    requires forall c :: c in cs ==> Sendable(c)
    ensures var (last, reports) := Session(bus, link, cs);
            var performed := PerformAll(link.core, cs);
            && last.spi == INITIAL && last.core == Final(link.core, cs)
            && |reports| == |performed| == |cs|
            && forall i :: 0 <= i < |cs| ==> reports[i] == Expected(cs[i], performed[i])
    decreases |cs|
  {
    if cs == [] {
    } else {
      HostCallIsAtomic(bus, link, cs[0]);
      SessionIsAtomic(bus, HostCall(bus, link, cs[0]).link, cs[1..]);
    }
  }

  /** From any record at all, a session is atomic from its second call on. */
  lemma SessionSettles(bus: Bus, link: Link, cs: seq<Command>)
    requires GoodBus(bus) && Ready(link.core) && cs != []
    requires forall c :: c in cs ==> Sendable(c)
    ensures var first := HostCall(bus, link, cs[0]);
            var (last, reports) := Session(bus, link, cs);
            var performed := PerformAll(first.link.core, cs[1..]);
            && AtRest(first.link) && last.spi == INITIAL && last.core == Final(first.link.core, cs[1..])
            && |reports| == |cs| && reports[0] == Reported(first.ret, first.data)
            && forall i :: 1 <= i < |cs| ==> reports[i] == Expected(cs[1..][i - 1], performed[i - 1])
  {
    match cs[0] {
      case Write(resid, cmd, payload) => WriteEndsAtRest(bus, link, resid, cmd, Some(payload), |payload|);
      case Read(resid, cmd, length) => ReadEndsAtRest(bus, link, resid, cmd, Zeros(length), length);
    }
    SessionIsAtomic(bus, HostCall(bus, link, cs[0]).link, cs[1..]);
  }

  /** Each report is the answer of the task that the command reached. */
  predicate Answered(cs: seq<Command>, made: seq<Call>, reports: seq<Reported>)
    requires |made| == |reports| == |cs|
  {
    forall i :: 0 <= i < |cs| ==>
      var reply := made[i].reply;
      if cs[i].Write? then reports[i].ret == reply.ret else reports[i].data == reply.data
  }

  lemma ExpectedIsAnswered(core: Core, cs: seq<Command>, made: seq<Call>, reports: seq<Reported>)
    requires Registered(core, cs) && MadeInOrder(core, cs, made) && |reports| == |cs|
    requires forall i :: 0 <= i < |cs| ==> reports[i] == Expected(cs[i], PerformAll(core, cs)[i])
    ensures Answered(cs, made, reports)
  {
    PerformedOnSameTable(core, cs);
    forall i | 0 <= i < |cs|
      ensures PerformAll(core, cs)[i].before.table == core.table && Known(core, cs[i].resid)
    {
      assert cs[i] in cs;
    }
  }

  /** On registered resources: the task calls are exactly the commands, in order, and every report is the task's own. */
  lemma SessionTrace(bus: Bus, link: Link, cs: seq<Command>)
    requires GoodBus(bus) && AtRest(link) && Registered(link.core, cs)
    requires forall c :: c in cs ==> Sendable(c)
    ensures var (last, reports) := Session(bus, link, cs);
            && CallsAre(link.core, cs, last.core.calls) && |reports| == |cs|
            && Answered(cs, last.core.calls[|link.core.calls|..], reports)
  {
    SessionIsAtomic(bus, link, cs);
    PerformedCalls(link.core, cs);
    var (last, reports) := Session(bus, link, cs);
    ExpectedIsAnswered(link.core, cs, last.core.calls[|link.core.calls|..], reports);
  }
}

/** The Raspberry Pi host driving a slave object, with the two callbacks of each byte in either order. */
module SpiHostDriver {
  import opened ControlTypes
  import opened ControlCore
  import opened Frames
  import opened SpiMachine
  import opened SpiTransactions
  import opened SpiHost

  function ByteEvents(datum: byte, requestFirst: bool): (Event, Event) {
    if requestFirst then (Required, Supplied(datum)) else (Supplied(datum), Required)
  }

  /** Each byte is supplied and one is requested, in the same order throughout. */
  function Alternating(bytes: seq<byte>, requestFirst: bool): seq<Event> {
    if bytes == [] then []
    else
      var (a, b) := ByteEvents(bytes[|bytes| - 1], requestFirst);
      Alternating(bytes[..|bytes| - 1], requestFirst) + [a, b]
  }

  function AlternatingBus(requestFirst: bool): Bus {
    (k, bytes) => Alternating(bytes, requestFirst)
  }

  lemma OneMore(events: seq<Event>, e: Event)
    ensures SuppliedBytes(events + [e]) == SuppliedBytes(events) + if e.Supplied? then [e.datum] else []
    ensures Polls(events + [e]) == Polls(events) + if e.Required? then 1 else 0
    ensures PolledAfterHeader(events + [e])
            <==> PolledAfterHeader(events) || (e.Required? && |SuppliedBytes(events)| >= 3)
    ensures forall core, spi :: Run(core, spi, events + [e]) == React(Run(core, spi, events), e)
  {
  }

  lemma CarriesOneMoreByte(events: seq<Event>, bytes: seq<byte>, datum: byte, requestFirst: bool)
    requires Carries(events, bytes) && Polls(events) == |bytes|
    ensures var (a, b) := ByteEvents(datum, requestFirst);
            Carries(events + [a, b], bytes + [datum]) && Polls(events + [a, b]) == |bytes| + 1
  {
    var (a, b) := ByteEvents(datum, requestFirst);
    OneMore(events, a);
    OneMore(events + [a], b);
    assert events + [a, b] == events + [a] + [b];
  }

  lemma {:induction false} AlternatingCarries(bytes: seq<byte>, requestFirst: bool)
    ensures Carries(Alternating(bytes, requestFirst), bytes)
    ensures Polls(Alternating(bytes, requestFirst)) == |bytes|
    decreases |bytes|
  {
    if bytes == [] {
    } else {
      var init, last := bytes[..|bytes| - 1], bytes[|bytes| - 1];
      AlternatingCarries(init, requestFirst);
      CarriesOneMoreByte(Alternating(init, requestFirst), init, last, requestFirst);
      assert init + [last] == bytes;
    }
  }

  /** Both callback orders are buses the session result covers. */
  lemma BothOrdersAreGood(requestFirst: bool)
    ensures GoodBus(AlternatingBus(requestFirst))
  {
    forall k: nat, bytes: seq<byte>
      ensures Carries(AlternatingBus(requestFirst)(k, bytes), bytes)
    {
      AlternatingCarries(bytes, requestFirst);
    }
  }

  // ----- The driver -----

  predicate CanClock(core: Core, spi: Spi, datum: byte, requestFirst: bool) {
    InRange(if requestFirst then spi else OnSupplied(core, spi, datum).spi)
  }

  /** What clocking one byte does. */
  function OneByte(core: Core, spi: Spi, datum: byte, requestFirst: bool): Trace {
    var (a, b) := ByteEvents(datum, requestFirst);
    React(React(Trace(core, spi, []), a), b)
  }

  method ClockByte(slave: SpiSlave, requestFirst: bool, datum: byte) returns (answer: byte)
    requires slave.Valid()
    requires CanClock(slave.control.View(), slave.View(), datum, requestFirst)
    modifies slave, slave.payload, slave.control
    ensures Trace(slave.control.View(), slave.View(), [answer])
            == OneByte(old(slave.control.View()), old(slave.View()), datum, requestFirst)
  {
    var ret;
    if requestFirst {
      ret, answer := slave.ProcessRequiresData();
      ret := slave.ProcessSuppliedData(datum, 8);
    } else {
      ret := slave.ProcessSuppliedData(datum, 8);
      ret, answer := slave.ProcessRequiresData();
    }
  }

  /** The run after the first `i` bytes. */
  function Clocked(core: Core, spi: Spi, bytes: seq<byte>, i: nat, requestFirst: bool): Trace
    requires i <= |bytes|
  {
    Run(core, spi, Alternating(bytes[..i], requestFirst))
  }

  lemma {:induction false} AlternatingPrefix(bytes: seq<byte>, i: nat, requestFirst: bool)
    requires i <= |bytes|
    ensures Alternating(bytes[..i], requestFirst) <= Alternating(bytes, requestFirst)
    decreases |bytes|
  {
    if i == |bytes| {
      assert bytes[..i] == bytes;
    } else {
      AlternatingPrefix(bytes[..|bytes| - 1], i, requestFirst);
      assert bytes[..|bytes| - 1][..i] == bytes[..i];
    }
  }

  lemma OneByteLonger(bytes: seq<byte>, i: nat, requestFirst: bool)
    requires i < |bytes|
    ensures var (a, b) := ByteEvents(bytes[i], requestFirst);
            Alternating(bytes[..i + 1], requestFirst) == Alternating(bytes[..i], requestFirst) + [a] + [b]
  {
    var (a, b) := ByteEvents(bytes[i], requestFirst);
    assert bytes[..i + 1][..i] == bytes[..i];
    assert Alternating(bytes[..i], requestFirst) + [a, b] == Alternating(bytes[..i], requestFirst) + [a] + [b];
  }

  lemma ClockOneRuns(core: Core, spi: Spi, bytes: seq<byte>, i: nat, requestFirst: bool)
    requires i < |bytes|
    ensures var (a, b) := ByteEvents(bytes[i], requestFirst);
            var sofar := Clocked(core, spi, bytes, i, requestFirst);
            Clocked(core, spi, bytes, i + 1, requestFirst) == React(React(sofar, a), b)
  {
    var sofar := Alternating(bytes[..i], requestFirst);
    var (a, b) := ByteEvents(bytes[i], requestFirst);
    OneByteLonger(bytes, i, requestFirst);
    OneMore(sofar, a);
    OneMore(sofar + [a], b);
  }

  lemma ClockOneInRange(core: Core, spi: Spi, bytes: seq<byte>, i: nat, requestFirst: bool)
    requires i < |bytes| && AnswersInRange(core, spi, Alternating(bytes, requestFirst))
    ensures var t := Clocked(core, spi, bytes, i, requestFirst);
            CanClock(t.core, t.spi, bytes[i], requestFirst)
  {
    var sofar := Alternating(bytes[..i], requestFirst);
    var (a, b) := ByteEvents(bytes[i], requestFirst);
    OneByteLonger(bytes, i, requestFirst);
    AlternatingPrefix(bytes, i + 1, requestFirst);
    var asked := if requestFirst then sofar + [a] else sofar + [a] + [b];
    PrefixInRange(core, spi, Alternating(bytes, requestFirst), asked);
    OneMore(sofar, a);
    assert asked[..|asked| - 1] == if requestFirst then sofar else sofar + [a];
  }

  lemma AnswersAccumulate(t: Trace, datum: byte, requestFirst: bool)
    ensures var (a, b) := ByteEvents(datum, requestFirst);
            var one := OneByte(t.core, t.spi, datum, requestFirst);
            React(React(t, a), b) == Trace(one.core, one.spi, t.answers + one.answers)
  {
  }

  lemma ClockOne(core: Core, spi: Spi, bytes: seq<byte>, i: nat, requestFirst: bool)
    requires i < |bytes| && AnswersInRange(core, spi, Alternating(bytes, requestFirst))
    ensures var t := Clocked(core, spi, bytes, i, requestFirst);
            var one := OneByte(t.core, t.spi, bytes[i], requestFirst);
            && Clocked(core, spi, bytes, i + 1, requestFirst) == Trace(one.core, one.spi, t.answers + one.answers)
            && CanClock(t.core, t.spi, bytes[i], requestFirst)
  {
    ClockOneRuns(core, spi, bytes, i, requestFirst);
    ClockOneInRange(core, spi, bytes, i, requestFirst);
    AnswersAccumulate(Clocked(core, spi, bytes, i, requestFirst), bytes[i], requestFirst);
  }

  /** After `i` of the bytes in `before`: the slave is where the run is, and answers have replaced what was sent. */
  ghost predicate ClockedTo(core: Core, spi: Spi, before: seq<byte>, length: nat, i: nat, requestFirst: bool,
                            after: Core, now: Spi, data: seq<byte>)
    requires i <= length <= |before|
  {
    var t := Clocked(core, spi, before[..length], i, requestFirst);
    t.core == after && t.spi == now && |t.answers| == i && data == Overlay(before, t.answers)
  }

  lemma ClockedOneMore(core: Core, spi: Spi, before: seq<byte>, length: nat, i: nat, requestFirst: bool,
                       after: Core, now: Spi, data: seq<byte>)
    requires i < length <= |before| && AnswersInRange(core, spi, Alternating(before[..length], requestFirst))
    requires ClockedTo(core, spi, before, length, i, requestFirst, after, now, data)
    ensures |data| == |before| && CanClock(after, now, data[i], requestFirst)
    ensures var one := OneByte(after, now, data[i], requestFirst);
            && |one.answers| == 1
            && ClockedTo(core, spi, before, length, i + 1, requestFirst, one.core, one.spi, data[i := one.answers[0]])
  {
    var bytes := before[..length];
    ClockOne(core, spi, bytes, i, requestFirst);
    var answers := Clocked(core, spi, bytes, i, requestFirst).answers;
    var one := OneByte(after, now, bytes[i], requestFirst);
    assert one.answers == [one.answers[0]];
    OverlayOneMore(before, answers, one.answers[0]);
  }

  /** Exchanges byte `i`. */
  method ClockAt(slave: SpiSlave, requestFirst: bool, data: array<byte>, i: nat,
                 ghost core: Core, ghost spi: Spi, ghost before: seq<byte>, ghost length: nat)
    requires slave.Valid() && i < length <= data.Length == |before|
    requires data != slave.payload && data != slave.control.table.entries
    requires AnswersInRange(core, spi, Alternating(before[..length], requestFirst))
    requires ClockedTo(core, spi, before, length, i, requestFirst, slave.control.View(), slave.View(), data[..])
    modifies slave, slave.payload, slave.control, data
    ensures ClockedTo(core, spi, before, length, i + 1, requestFirst, slave.control.View(), slave.View(), data[..])
  {
    ghost var one := OneByte(slave.control.View(), slave.View(), data[i], requestFirst);
    ClockedOneMore(core, spi, before, length, i, requestFirst, slave.control.View(), slave.View(), data[..]);
    var answer := ClockByte(slave, requestFirst, data[i]);
    assert one.answers == [answer];
    data[i] := answer;
  }

  method ClockBytes(slave: SpiSlave, requestFirst: bool, data: array<byte>, length: nat)
    requires slave.Valid() && length <= data.Length
    requires data != slave.payload && data != slave.control.table.entries
    requires AnswersInRange(slave.control.View(), slave.View(), Alternating(data[..length], requestFirst))
    modifies slave, slave.payload, slave.control, data
    ensures var t := Clocked(old(slave.control.View()), old(slave.View()), old(data[..length]), length, requestFirst);
            && slave.control.View() == t.core && slave.View() == t.spi
            && |t.answers| == length && data[..] == Overlay(old(data[..]), t.answers)
  {
    ghost var core, spi, before := slave.control.View(), slave.View(), data[..];
    var i := 0;
    assert before[..length] == data[..length];
    while i < length
      invariant 0 <= i <= length
      invariant ClockedTo(core, spi, before, length, i, requestFirst, slave.control.View(), slave.View(), data[..])
    {
      ClockAt(slave, requestFirst, data, i, core, spi, before, length);
      i := i + 1;
    }
  }

  lemma EndKeepsCounter(core: Core, spi: Spi)
    requires CounterInv(spi)
    ensures CounterInv(OnEnd(core, spi).spi)
  {
  }

  /** A transfer of `length` bytes; each byte sent is overwritten by the byte received. */
  method TransferN(slave: SpiSlave, requestFirst: bool, data: array<byte>, length: nat)
    requires slave.Valid() && length <= data.Length
    requires data != slave.payload && data != slave.control.table.entries
    requires CounterInv(slave.View())
    requires AnswersInRange(slave.control.View(), slave.View(), Alternating(data[..length], requestFirst))
    modifies slave, slave.payload, slave.control, data
    ensures var t := Run(old(slave.control.View()), old(slave.View()), Alternating(old(data[..length]), requestFirst));
            var e := OnEnd(t.core, t.spi);
            && slave.control.View() == e.core && slave.View() == e.spi && CounterInv(slave.View())
            && |t.answers| == length && data[..] == Overlay(old(data[..]), t.answers)
  {
    ghost var bytes := data[..length];
    RunKeepsCounter(slave.control.View(), slave.View(), Alternating(bytes, requestFirst));
    ClockBytes(slave, requestFirst, data, length);
    assert bytes[..length] == bytes;
    EndKeepsCounter(slave.control.View(), slave.View());
    var ret := slave.ProcessEndsTransaction();
  }

  /** A transfer leaves the link after the same transfer over the bus. */
  lemma TransferIsRun(core: Core, spi: Spi, k: nat, bytes: seq<byte>, requestFirst: bool)
    ensures var t := Run(core, spi, Alternating(bytes, requestFirst));
            var e := OnEnd(t.core, t.spi);
            |t.answers| == |bytes| ==>
              Transfer(AlternatingBus(requestFirst), Link(core, spi, k), bytes)
              == (Link(e.core, e.spi, k + 1), t.answers)
  {
    var answers := Run(core, spi, Alternating(bytes, requestFirst)).answers;
    assert |answers| == |bytes| ==> Fit(answers, |bytes|) == answers;
  }

  /** The first transaction: the frame is built and clocked out. */
  method SendFrame(slave: SpiSlave, requestFirst: bool, data: array<byte>, resid: byte, cmd: byte,
                   payload: array?<byte>, length: nat)
    requires slave.Valid() && CounterInv(slave.View()) && data.Length == TRANSACTION_MAX_BYTES
    requires Holds(Bytes(payload), length) && SpiFits(cmd, Bytes(payload), length)
    requires payload != data && data != slave.payload && data != slave.control.table.entries
    requires payload != slave.payload && payload != slave.control.table.entries
    requires AnswersInRange(slave.control.View(), slave.View(),
                            Alternating(SpiFrame(resid, cmd, Bytes(payload), length), requestFirst))
    modifies slave, slave.payload, slave.control, data
    ensures var sent := Transfer(AlternatingBus(requestFirst),
                                 Link(old(slave.control.View()), old(slave.View()), 0),
                                 SpiFrame(resid, cmd, old(Bytes(payload)), length)).0;
            slave.control.View() == sent.core && slave.View() == sent.spi && CounterInv(slave.View())
  {
    ghost var frame := SpiFrame(resid, cmd, Bytes(payload), length);
    TransferIsRun(slave.control.View(), slave.View(), 0, frame, requestFirst);
    var size := BuildSpiData(data, resid, cmd, payload, length);
    TransferN(slave, requestFirst, data, size);
  }

  /** The second transaction of a read: zeros are clocked out and the answer is clocked in over them. */
  method ReceiveData(slave: SpiSlave, requestFirst: bool, data: array<byte>, length: nat)
    requires slave.Valid() && CounterInv(slave.View()) && length <= data.Length
    requires data != slave.payload && data != slave.control.table.entries
    requires AnswersInRange(slave.control.View(), slave.View(), Alternating(Zeros(length), requestFirst))
    modifies slave, slave.payload, slave.control, data
    ensures var (after, received) := Transfer(AlternatingBus(requestFirst),
                                              Link(old(slave.control.View()), old(slave.View()), 1), Zeros(length));
            && slave.control.View() == after.core && slave.View() == after.spi && CounterInv(slave.View())
            && data[..length] == received
  {
    TransferIsRun(slave.control.View(), slave.View(), 1, Zeros(length), requestFirst);
    forall i | 0 <= i < data.Length {
      data[i] := 0;
    }
    assert data[..length] == Zeros(length);
    TransferN(slave, requestFirst, data, length);
  }

  /** Both transactions of a read, over one buffer. */
  method Exchange(slave: SpiSlave, requestFirst: bool, data: array<byte>, resid: byte, cmd: byte,
                  payload: array<byte>, length: nat)
    requires slave.Valid() && CounterInv(slave.View()) && data.Length == TRANSACTION_MAX_BYTES
    requires length <= TRANSACTION_MAX_BYTES && length <= payload.Length && SpiFits(cmd, Some(payload[..]), length)
    requires payload != data && data != slave.payload && data != slave.control.table.entries
    requires payload != slave.payload && payload != slave.control.table.entries
    requires ReadCallInRange(AlternatingBus(requestFirst), Link(slave.control.View(), slave.View(), 0),
                             resid, cmd, payload[..], length)
    modifies slave, slave.payload, slave.control, data
    ensures var r := HostRead(AlternatingBus(requestFirst), Link(old(slave.control.View()), old(slave.View()), 0),
                              resid, cmd, old(payload[..]), length);
            && slave.control.View() == r.link.core && slave.View() == r.link.spi && CounterInv(slave.View())
            && data[..length] == r.data
  {
    SendFrame(slave, requestFirst, data, resid, cmd, payload, length);
    ReceiveData(slave, requestFirst, data, Padded(length));
    assert data[..Padded(length)][..length] == data[..length];
  }

  /** For every command code; the call has to stay inside the device's buffer (`ReadCallInRangeIff`). */
  method ControlReadCommand(slave: SpiSlave, requestFirst: bool, resid: byte, cmd: byte,
                            payload: array<byte>, length: nat)
    returns (ret: byte)
    requires slave.Valid() && CounterInv(slave.View())
    requires length <= TRANSACTION_MAX_BYTES && length <= payload.Length && SpiFits(cmd, Some(payload[..]), length)
    requires payload != slave.payload && payload != slave.control.table.entries
    requires ReadCallInRange(AlternatingBus(requestFirst), Link(slave.control.View(), slave.View(), 0),
                             resid, cmd, payload[..], length)
    modifies slave, slave.payload, slave.control, payload
    ensures var r := HostRead(AlternatingBus(requestFirst), Link(old(slave.control.View()), old(slave.View()), 0),
                              resid, cmd, old(payload[..]), length);
            && slave.control.View() == r.link.core && slave.View() == r.link.spi && CounterInv(slave.View())
            && ret == r.ret && payload[..] == Overlay(old(payload[..]), r.data)
  {
    var dataSentReceived := new byte[TRANSACTION_MAX_BYTES](i => 0);
    Exchange(slave, requestFirst, dataSentReceived, resid, cmd, payload, length);
    CopyBytes(payload, dataSentReceived, length);
    ret := SUCCESS;
  }

  /** The alternating bus does not depend on the number of the transaction. */
  lemma StatusReadAnywhere(link: Link, k: nat, payload: seq<byte>, requestFirst: bool)
    requires |payload| >= 1
    ensures var bus := AlternatingBus(requestFirst);
            var there, here := link.(count := k), StatusRead(bus, link);
            var r := HostRead(bus, there, SPECIAL_RESID, GET_LAST_COMMAND_STATUS, payload, 1);
            && r.link.core == here.link.core && r.link.spi == here.link.spi && r.data == here.data
            && (ReadCallInRange(bus, there, SPECIAL_RESID, GET_LAST_COMMAND_STATUS, payload, 1)
                <==> ReadCallInRange(bus, link, SPECIAL_RESID, GET_LAST_COMMAND_STATUS, Zeros(1), 1))
  {
  }

  /** The status read after a write; `link` is what the slave is left with, at any transaction number. */
  method ReadStatus(slave: SpiSlave, requestFirst: bool, ghost link: Link) returns (ret: byte, status: byte)
    requires slave.Valid() && CounterInv(slave.View())
    requires slave.control.View() == link.core && slave.View() == link.spi
    requires ReadCallInRange(AlternatingBus(requestFirst), link, SPECIAL_RESID, GET_LAST_COMMAND_STATUS, Zeros(1), 1)
    modifies slave, slave.payload, slave.control
    ensures var r := StatusRead(AlternatingBus(requestFirst), link);
            && slave.control.View() == r.link.core && slave.View() == r.link.spi
            && ret == r.ret && status == r.data[0]
  {
    var commandStatus := new byte[1];
    StatusReadAnywhere(link, 0, commandStatus[..], requestFirst);
    ret := ControlReadCommand(slave, requestFirst, SPECIAL_RESID, GET_LAST_COMMAND_STATUS, commandStatus, 1);
    status := commandStatus[0];
  }

  /** For every command code, payload and length whose frame fits (`WriteCallInRangeIff`). */
  method ControlWriteCommand(slave: SpiSlave, requestFirst: bool, resid: byte, cmd: byte,
                             payload: array?<byte>, length: nat)
    returns (ret: byte)
    requires slave.Valid() && CounterInv(slave.View())
    requires Holds(Bytes(payload), length) && SpiFits(cmd, Bytes(payload), length)
    requires payload != slave.payload && payload != slave.control.table.entries
    requires WriteCallInRange(AlternatingBus(requestFirst), Link(slave.control.View(), slave.View(), 0),
                              resid, cmd, Bytes(payload), length)
    modifies slave, slave.payload, slave.control
    ensures var r := HostWrite(AlternatingBus(requestFirst), Link(old(slave.control.View()), old(slave.View()), 0),
                               resid, cmd, old(Bytes(payload)), length);
            slave.control.View() == r.link.core && slave.View() == r.link.spi && ret == r.ret
  {
    ghost var sent := Transfer(AlternatingBus(requestFirst), Link(slave.control.View(), slave.View(), 0),
                               SpiFrame(resid, cmd, Bytes(payload), length)).0;
    var dataSentReceived := new byte[TRANSACTION_MAX_BYTES];
    SendFrame(slave, requestFirst, dataSentReceived, resid, cmd, payload, length);
    var status;
    ret, status := ReadStatus(slave, requestFirst, sent);
    if ret != SUCCESS {
      return ERROR;
    }
    return status;
  }
}
