/** Properties of every sequence of I2C bus events. */
module I2cRuns {
  import opened ControlTypes
  import opened ControlCore
  import opened I2cMachine

  datatype Event = StartWrite | SendByte(data: byte) | StartRead | ReadByte | StopBit

  datatype Device = Device(core: Core, i2c: I2c)

  function React(d: Device, e: Event): Device {
    match e
    case StartWrite => Device(d.core, OnWriteStart(d.i2c))
    case SendByte(data) => var s := OnWriteData(d.core, d.i2c, data); Device(s.core, s.i2c)
    case StartRead => var s := OnReadStart(d.core, d.i2c); Device(s.core, s.i2c)
    case ReadByte => Device(d.core, OnReadData(d.i2c).i2c)
    case StopBit => Device(d.core, OnStop(d.i2c))
  }

  function Run(d: Device, events: seq<Event>): Device {
    if events == [] then d else React(Run(d, events[..|events| - 1]), events[|events| - 1])
  }

  // ----- At most one delivery per write start -----

  function TaskWrites(calls: seq<Call>): nat {
    if calls == [] then 0
    else TaskWrites(calls[..|calls| - 1]) + if calls[|calls| - 1].request.WriteTo? then 1 else 0
  }

  function GoodReads(calls: seq<Call>): nat {
    if calls == [] then 0
    else
      var last := calls[|calls| - 1];
      GoodReads(calls[..|calls| - 1]) + if last.request.ReadFrom? && last.reply.ret == SUCCESS then 1 else 0
  }

  function Starts(events: seq<Event>): nat {
    if events == [] then 0
    else Starts(events[..|events| - 1]) + if events[|events| - 1].StartWrite? then 1 else 0
  }

  /** Task writes the machine can still make before the next write start. */
  function WriteBudget(i2c: I2c): nat {
    if || i2c.state in {WriteStart, WriteResid, WriteCmd}
       || (i2c.state == WriteSize && i2c.declared > 0)
       || (i2c.state == WriteData && i2c.sent < i2c.declared)
    then 1 else 0
  }

  /** Successful task reads the machine can still make before the next write start. */
  function ReadBudget(i2c: I2c): nat {
    if i2c.state in {WriteStart, WriteResid, WriteCmd, WriteSize} then 1 else 0
  }

  lemma ReactSpendsBudget(d: Device, e: Event)
    ensures var d' := React(d, e);
            var credit := if e.StartWrite? then 1 else 0;
            && TaskWrites(d'.core.calls) + WriteBudget(d'.i2c) <= TaskWrites(d.core.calls) + WriteBudget(d.i2c) + credit
            && GoodReads(d'.core.calls) + ReadBudget(d'.i2c) <= GoodReads(d.core.calls) + ReadBudget(d.i2c) + credit
  {
  }

  /**
   * Over every event sequence, well formed or not: no more task writes than write starts, and no more
   * successful task reads than write starts, beyond what the machine was already entitled to.
   */
  lemma {:induction false} AtMostOneDeliveryPerStart(d: Device, events: seq<Event>)
    ensures var d' := Run(d, events);
            && TaskWrites(d'.core.calls) + WriteBudget(d'.i2c)
               <= TaskWrites(d.core.calls) + WriteBudget(d.i2c) + Starts(events)
            && GoodReads(d'.core.calls) + ReadBudget(d'.i2c)
               <= GoodReads(d.core.calls) + ReadBudget(d.i2c) + Starts(events)
    decreases |events|
  {
    if events == [] {
    } else {
      var init := events[..|events| - 1];
      AtMostOneDeliveryPerStart(d, init);
      ReactSpendsBudget(Run(d, init), events[|events| - 1]);
    }
  }

  predicate Spent(i2c: I2c) {
    i2c.state in {Idle, Error, WriteOverflow, ReadStart, ReadData, ReadOverflow}
  }

  /** Idle, failed, overflowed or already reading: no task is called until the next write start. */
  lemma {:induction false} NoCallsUntilRestart(d: Device, events: seq<Event>)
    requires Spent(d.i2c) && StartWrite !in events
    ensures Spent(Run(d, events).i2c) && Run(d, events).core.calls == d.core.calls
    decreases |events|
  {
    if events == [] {
    } else {
      NoCallsUntilRestart(d, events[..|events| - 1]);
      assert events[|events| - 1] in events;
    }
  }

  /** A stop ends the transaction in every state: until the next write start no task is called and no read accepted. */
  lemma StopEndsTransaction(d: Device, events: seq<Event>)
    requires StartWrite !in events
    ensures React(d, StopBit).core == d.core && React(d, StopBit).i2c.state == Idle
    ensures var last := Run(React(d, StopBit), events);
            && Spent(last.i2c) && last.core.calls == d.core.calls
            && OnReadStart(last.core, last.i2c).ret == OTHER_TRANSPORT_ERROR
  {
    NoCallsUntilRestart(React(d, StopBit), events);
  }

  /** A stop where no transaction has got past its length byte, or it has failed, is out of place. */
  lemma StopOutOfPlace(i2c: I2c)
    requires i2c.state in {Idle, WriteStart, WriteResid, WriteCmd, Error}
    ensures StopVerdict(i2c) == OTHER_TRANSPORT_ERROR && StopVerdict(OnStop(i2c)) == OTHER_TRANSPORT_ERROR
  {
  }

  /** The code an event's handler returns. */
  function Code(d: Device, e: Event): byte {
    match e
    case StartWrite => SUCCESS
    case SendByte(data) => OnWriteData(d.core, d.i2c, data).ret
    case StartRead => OnReadStart(d.core, d.i2c).ret
    case ReadByte => OnReadData(d.i2c).ret
    case StopBit => StopVerdict(d.i2c)
  }

  /** An event the machine does not expect: a byte, a read start or a read where its state calls for something else. */
  predicate OutOfPlace(i2c: I2c, e: Event) {
    match e
    case SendByte(_) => i2c.state in {Idle, ReadStart, ReadData, ReadOverflow, Error}
    case StartRead => i2c.state != WriteSize || !IsRead(i2c.cmd)
    case ReadByte => i2c.state !in {ReadStart, ReadData}
    case _ => false
  }

  /** Such an event fails, calls no task and leaves the machine failed. */
  lemma OutOfPlaceFails(d: Device, e: Event)
    requires OutOfPlace(d.i2c, e)
    ensures Code(d, e) == if e.StartRead? then OTHER_TRANSPORT_ERROR else ERROR
    ensures React(d, e).i2c == d.i2c.(state := Error) && React(d, e).core.calls == d.core.calls
    ensures React(d, e).core.lastStatus == if e.SendByte? then ERROR else d.core.lastStatus
  {
  }

  /** A failed machine stays failed, and refuses everything, until a stop or a new start. */
  lemma {:induction false} FailureSticks(d: Device, events: seq<Event>, e: Event)
    requires d.i2c.state == Error && StartWrite !in events && StopBit !in events && e != StartWrite
    ensures Run(d, events).i2c == d.i2c && Run(d, events).core.calls == d.core.calls
    ensures Code(Run(d, events), e) != SUCCESS
    decreases |events|
  {
    if events == [] {
    } else {
      var init, last := events[..|events| - 1], events[|events| - 1];
      assert last in events;
      FailureSticks(d, init, e);
      OutOfPlaceFails(Run(d, init), last);
    }
  }

  // ----- Counters and buffer accesses -----

  /** Nothing but a stop or a new start follows a zero-length header. */
  predicate Framed(i2c: I2c, e: Event) {
    i2c.declared == 0 && i2c.state in {WriteSize, WriteData, ReadStart, ReadData} ==> e in {StartWrite, StopBit}
  }

  predicate FramedRun(d: Device, events: seq<Event>)
    decreases |events|
  {
    events == [] ||
    (FramedRun(d, events[..|events| - 1]) && Framed(Run(d, events[..|events| - 1]).i2c, events[|events| - 1]))
  }

  predicate CounterInv(i2c: I2c) {
    && i2c.sent <= i2c.declared <= DATA_MAX_BYTES
    && (i2c.state == WriteSize ==> i2c.sent == 0)
    && (i2c.state in {ReadStart, ReadData} ==> i2c.declared > 0)
  }

  lemma ReactKeepsCounter(d: Device, e: Event)
    requires CounterInv(d.i2c) && Framed(d.i2c, e)
    ensures CounterInv(React(d, e).i2c)
  {
  }

  /** In a well-framed run the count never passes the header length, and every access is inside the buffer. */
  lemma {:induction false} CountersStayInBounds(d: Device, events: seq<Event>)
    requires CounterInv(d.i2c) && FramedRun(d, events)
    ensures CounterInv(Run(d, events).i2c) && InRange(Run(d, events).i2c)
    decreases |events|
  {
    if events == [] {
    } else {
      var init := events[..|events| - 1];
      CountersStayInBounds(d, init);
      ReactKeepsCounter(Run(d, init), events[|events| - 1]);
    }
  }
}
