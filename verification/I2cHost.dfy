/** The host half of an I2C session, composed with the device. */
module I2cHost {
  import opened ControlTypes
  import opened ResourceTables
  import opened ControlCore
  import opened Commands
  import opened Frames
  import opened I2cMachine
  import opened I2cTransactions

  datatype Link = Link(core: Core, i2c: I2c)

  // ----- The bus: a byte is acknowledged exactly when its handler returns success -----

  datatype Sent = Sent(link: Link, acked: bool, count: nat)

  /** The master sends bytes until one is not acknowledged. */
  function SendUntilNack(link: Link, bytes: seq<byte>): Sent {
    if bytes == [] then Sent(link, true, 0)
    else
      var s := SendUntilNack(link, bytes[..|bytes| - 1]);
      if !s.acked then s
      else
        var step := OnWriteData(s.link.core, s.link.i2c, bytes[|bytes| - 1]);
        Sent(Link(step.core, step.i2c), step.ret == SUCCESS, s.count + 1)
  }

  function Stopped(link: Link): Link {
    link.(i2c := OnStop(link.i2c))
  }

  /** A write transfer; `stopOnNack` says whether the master ends a refused transfer it meant to continue. */
  function MasterWrite(link: Link, bytes: seq<byte>, stop: bool, stopOnNack: bool): Sent {
    var s := SendUntilNack(link.(i2c := OnWriteStart(link.i2c)), bytes);
    if stop || (!s.acked && stopOnNack) then s.(link := Stopped(s.link)) else s
  }

  datatype Got = Got(link: Link, acked: bool, data: seq<byte>)

  /** A byte that the slave's handler does not assign is read as zero. */
  function Values(data: seq<Option<byte>>): (r: seq<byte>)
    ensures |r| == |data|
    ensures forall i :: 0 <= i < |r| ==> r[i] == data[i].GetOr(0)
  {
    seq(|data|, i requires 0 <= i < |data| => data[i].GetOr(0))
  }

  /** A read transfer of `n` bytes after a start or repeated start. */
  function MasterRead(link: Link, n: nat, stopOnNack: bool): (r: Got)
    ensures |r.data| == n
  {
    var started := OnReadStart(link.core, link.i2c);
    if started.ret != SUCCESS then
      var after := Link(started.core, started.i2c);
      Got(if stopOnNack then Stopped(after) else after, false, Zeros(n))
    else
      var (i2c, data) := ReadBytes(started.i2c, n);
      Got(Stopped(Link(started.core, i2c)), true, Values(data))
  }

  // ----- The host calls -----

  datatype HostResult = HostResult(link: Link, ret: byte, data: seq<byte>)

  /**
   * What the sources leave open: whether the master stops after a refusal, and what the host's status variable holds
   * before it is read.
   */
  datatype Host = Host(stopOnNack: bool, stale: byte)

  function HostRead(link: Link, resid: byte, cmd: byte, length: nat, stopOnNack: bool): (r: HostResult)
    ensures |r.data| == length
  {
    var frame := I2cFrame(resid, SetRead(cmd), None, length);
    var s := MasterWrite(link, frame, false, stopOnNack);
    if !s.acked || s.count != |frame| then HostResult(s.link, ERROR, Zeros(length))
    else
      var r := MasterRead(s.link, length, stopOnNack);
      HostResult(r.link, if r.acked then SUCCESS else ERROR, r.data)
  }

  function HostWrite(link: Link, resid: byte, cmd: byte, payload: Option<seq<byte>>, length: nat, host: Host)
    : HostResult
    requires Holds(payload, length)
  {
    var frame := I2cFrame(resid, SetWrite(cmd), payload, length);
    var s := MasterWrite(link, frame, true, host.stopOnNack);
    if !s.acked || s.count != |frame| then HostResult(s.link, ERROR, [])
    else
      var status := HostRead(s.link, SPECIAL_RESID, GET_LAST_COMMAND_STATUS, 1, host.stopOnNack);
      HostResult(status.link, if status.ret == SUCCESS then status.data[0] else host.stale, [])
  }

  // ----- Each host call is one atomic operation, up to the status register -----

  /** Equal but for the status register, which every I2C header byte overwrites. */
  ghost predicate SameCalls(a: Core, b: Core) {
    a.(lastStatus := SUCCESS) == b.(lastStatus := SUCCESS)
  }

  lemma {:induction false} SentWhole(link: Link, bytes: seq<byte>)
    requires bytes != []
    requires forall k :: 0 <= k < |bytes| ==> SendBytes(link.core, link.i2c, bytes[..k]).ret == SUCCESS
    ensures var s := SendBytes(link.core, link.i2c, bytes);
            SendUntilNack(link, bytes) == Sent(Link(s.core, s.i2c), s.ret == SUCCESS, |bytes|)
    decreases |bytes|
  {
    var init := bytes[..|bytes| - 1];
    assert SendBytes(link.core, link.i2c, init).ret == SUCCESS;
    if init == [] {
    } else {
      forall k | 0 <= k < |init|
        ensures SendBytes(link.core, link.i2c, init[..k]).ret == SUCCESS
      {
        assert init[..k] == bytes[..k];
      }
      SentWhole(link, init);
    }
  }

  /** An unknown resource is refused at the first byte. */
  lemma {:induction false} RefusedAtOnce(link: Link, bytes: seq<byte>)
    requires bytes != [] && link.i2c.state == WriteStart && !Known(link.core, bytes[0])
    ensures SendUntilNack(link, bytes)
            == Sent(Link(link.core.(lastStatus := BAD_COMMAND), link.i2c.(state := Error)), false, 1)
    decreases |bytes|
  {
    var init := bytes[..|bytes| - 1];
    if init == [] {
    } else {
      RefusedAtOnce(link, init);
    }
  }

  lemma WriteFrameIsAtomic(link: Link, resid: byte, cmd: byte, payload: seq<byte>)
    requires link.i2c.state == WriteStart && !IsRead(cmd) && |payload| <= DATA_MAX_BYTES
    ensures var s := SendUntilNack(link, [resid, cmd, |payload|] + payload);
            var atomic := AtomicWrite(link.core, resid, cmd, payload);
            && s.link.core == atomic.core.(lastStatus := atomic.ret)
            && (s.acked <==> atomic.ret == SUCCESS)
            && (s.acked ==> s.count == 3 + |payload|)
  {
    var bytes: seq<byte> := [resid, cmd, |payload|] + payload;
    if !Known(link.core, resid) {
      RefusedAtOnce(link, bytes);
    } else {
      assert OnWriteStart(link.i2c) == link.i2c;
      forall k | 0 <= k < |bytes|
        ensures SendBytes(link.core, link.i2c, bytes[..k]).ret == SUCCESS
      {
        MachineRefinesParser(link.core, link.i2c, bytes[..k]);
      }
      SentWhole(link, bytes);
      MachineRefinesParser(link.core, link.i2c, bytes);
      assert bytes[3..] == payload && payload[..|payload|] == payload;
    }
  }

  predicate StatusRead(resid: byte, cmd: byte, length: nat) {
    resid == SPECIAL_RESID && cmd == GET_LAST_COMMAND_STATUS && length == 1
  }

  /** What a read over I2C reports, given the same read performed atomically. */
  predicate ReadReport(resid: byte, cmd: byte, length: nat, ret: byte, data: seq<byte>, atomic: ReadBack) {
    if StatusRead(resid, cmd, length) then ret == SUCCESS && data == [SUCCESS]
    else (ret == if atomic.ret == SUCCESS then SUCCESS else ERROR) && (ret == SUCCESS ==> data == atomic.data)
  }

  lemma ReadFrame(link: Link, resid: byte, cmd: byte, length: nat)
    requires link.i2c.state == WriteStart && IsRead(cmd) && 1 <= length <= DATA_MAX_BYTES && Known(link.core, resid)
    ensures var s := SendBytes(link.core, link.i2c, [resid, cmd, length]);
            SendUntilNack(link, [resid, cmd, length]) == Sent(Link(s.core, s.i2c), true, 3)
  {
    var bytes: seq<byte> := [resid, cmd, length];
    assert OnWriteStart(link.i2c) == link.i2c;
    AfterReadHeader(link.core, link.i2c, resid, cmd, length);
    forall k | 0 <= k < |bytes|
      ensures SendBytes(link.core, link.i2c, bytes[..k]).ret == SUCCESS
    {
      MachineRefinesParser(link.core, link.i2c, bytes[..k]);
    }
    SentWhole(link, bytes);
  }

  /** A read that declares length zero: its header is an empty write, and the machine waits for the read start. */
  lemma ZeroReadFrame(link: Link, resid: byte, cmd: byte)
    requires link.i2c.state == WriteStart && IsRead(cmd) && Known(link.core, resid)
    ensures var s := SendUntilNack(link, [resid, cmd, 0]);
            var w := AtomicWrite(link.core, resid, cmd, []);
            && s.link.core == w.core.(lastStatus := w.ret)
            && (s.acked <==> w.ret == SUCCESS) && s.count == 3
            && s.link.i2c == link.i2c.(state := WriteSize, resid := resid, cmd := cmd, declared := 0, sent := 0,
                                       ifnum := Search(link.core.table, resid).value)
  {
    var bytes: seq<byte> := [resid, cmd, 0];
    assert OnWriteStart(link.i2c) == link.i2c;
    forall k | 0 <= k < |bytes|
      ensures SendBytes(link.core, link.i2c, bytes[..k]).ret == SUCCESS
    {
      MachineRefinesParser(link.core, link.i2c, bytes[..k]);
    }
    MachineRefinesParser(link.core, link.i2c, bytes);
    SentWhole(link, bytes);
  }

  lemma ReadWithinBuffer(link: Link, resid: byte, cmd: byte, length: nat, stopOnNack: bool)
    requires Ready(link.core) && 1 <= length <= DATA_MAX_BYTES
    ensures var r := HostRead(link, resid, cmd, length, stopOnNack);
            var atomic := AtomicRead(link.core, resid, SetRead(cmd), length);
            SameCalls(r.link.core, atomic.core) && ReadReport(resid, SetRead(cmd), length, r.ret, r.data, atomic)
  {
    var c := SetRead(cmd);
    var started := link.(i2c := OnWriteStart(link.i2c));
    if !Known(link.core, resid) {
      RefusedAtOnce(started, [resid, c, length]);
    } else {
      ReadFrame(started, resid, c, length);
      ReadDelivery(link.core, link.i2c, resid, c, length, length);
      var quiet := AtomicRead(link.core.(lastStatus := SUCCESS), resid, c, length);
      var atomic := AtomicRead(link.core, resid, c, length);
      assert SameCalls(quiet.core, atomic.core) && quiet.ret == atomic.ret;
      var r := HostRead(link, resid, cmd, length, stopOnNack);
      if r.ret == SUCCESS {
        assert r.data == quiet.data;
      }
    }
  }

  /**
   * From any record, for every resource ID and every length. Within the buffer, one atomic read. A longer read sends no
   * header and is refused. A read of length zero is an empty write and, if that succeeds, an empty read.
   */
  lemma HostReadIsAtomic(link: Link, resid: byte, cmd: byte, length: nat, stopOnNack: bool)
    requires Ready(link.core)
    ensures var r := HostRead(link, resid, cmd, length, stopOnNack);
            var c := SetRead(cmd);
            if length > DATA_MAX_BYTES then
              r.ret == ERROR && r.link.core == link.core
            else if length > 0 then
              var atomic := AtomicRead(link.core, resid, c, length);
              SameCalls(r.link.core, atomic.core) && ReadReport(resid, c, length, r.ret, r.data, atomic)
            else
              var w := AtomicWrite(link.core, resid, c, []);
              if w.ret != SUCCESS then
                r.ret == ERROR && SameCalls(r.link.core, w.core)
              else
                var atomic := AtomicRead(w.core, resid, c, 0);
                SameCalls(r.link.core, atomic.core) && r.ret == if atomic.ret == SUCCESS then SUCCESS else ERROR
  {
    var c := SetRead(cmd);
    var started := link.(i2c := OnWriteStart(link.i2c));
    if 0 < length <= DATA_MAX_BYTES {
      ReadWithinBuffer(link, resid, cmd, length, stopOnNack);
    } else if length == 0 && Known(link.core, resid) {
      ZeroReadFrame(started, resid, c);
      assert started.i2c.payload[..0] == [] == Zeros(0);
    } else if length == 0 {
      RefusedAtOnce(started, [resid, c, 0]);
    }
  }

  /** A read call makes the task calls of the atomic read exactly when it fits or can reach no task. */
  lemma ReadCallsAreAtomicIff(link: Link, resid: byte, cmd: byte, length: nat, stopOnNack: bool)
    requires Ready(link.core)
    ensures HostRead(link, resid, cmd, length, stopOnNack).link.core.calls
            == AtomicRead(link.core, resid, SetRead(cmd), length).core.calls
            <==> 1 <= length <= DATA_MAX_BYTES || !Known(link.core, resid) || resid == SPECIAL_RESID
  {
    HostReadIsAtomic(link, resid, cmd, length, stopOnNack);
    if length == 0 && Known(link.core, resid) && resid != SPECIAL_RESID {
      var calls := HostRead(link, resid, cmd, length, stopOnNack).link.core.calls;
      assert calls[|link.core.calls|].request.WriteTo?;
    }
  }

  /** Corollary: a read of more than 253 bytes fails without a task call. */
  lemma OversizedReadIsRefused(link: Link, resid: byte, cmd: byte, length: nat, stopOnNack: bool)
    requires length > DATA_MAX_BYTES
    ensures var r := HostRead(link, resid, cmd, length, stopOnNack);
            r.ret == ERROR && r.link.core == link.core
  {
  }

  lemma StatusReadSucceeds(link: Link, stopOnNack: bool)
    requires Ready(link.core)
    ensures var r := HostRead(link, SPECIAL_RESID, GET_LAST_COMMAND_STATUS, 1, stopOnNack);
            r.ret == SUCCESS && r.data == [SUCCESS] && SameCalls(r.link.core, link.core)
  {
    HostReadIsAtomic(link, SPECIAL_RESID, GET_LAST_COMMAND_STATUS, 1, stopOnNack);
  }

  /** The frame carries the payload the caller announced. */
  predicate Complete(payload: Option<seq<byte>>, length: nat) {
    length <= DATA_MAX_BYTES && (payload.Some? || length == 0)
  }

  /** From any record, for every resource ID and complete call: success exactly when the atomic write succeeds. */
  lemma HostWriteIsAtomic(link: Link, resid: byte, cmd: byte, payload: Option<seq<byte>>, length: nat, host: Host)
    requires Ready(link.core) && Holds(payload, length) && Complete(payload, length)
    ensures var r := HostWrite(link, resid, cmd, payload, length, host);
            var atomic := AtomicWrite(link.core, resid, SetWrite(cmd), Announced(payload, length));
            SameCalls(r.link.core, atomic.core) && r.ret == if atomic.ret == SUCCESS then SUCCESS else ERROR
  {
    var c, bytes := SetWrite(cmd), Announced(payload, length);
    var frame := I2cFrame(resid, c, payload, length);
    assert frame == [resid, c, |bytes|] + bytes;
    WriteFrameIsAtomic(link.(i2c := OnWriteStart(link.i2c)), resid, c, bytes);
    var s := MasterWrite(link, frame, true, host.stopOnNack);
    if s.acked {
      StatusReadSucceeds(s.link, host.stopOnNack);
    }
  }

  /**
   * With a null payload of nonzero length, or more than 253 bytes, the frame is the header alone or empty: no task is
   * called, and the host reports success unless the header names an unknown resource.
   */
  lemma IncompleteWriteReportsSuccessIff(link: Link, resid: byte, cmd: byte, payload: Option<seq<byte>>, length: nat,
                                         host: Host)
    requires Ready(link.core) && Holds(payload, length) && !Complete(payload, length)
    ensures var r := HostWrite(link, resid, cmd, payload, length, host);
            && SameCalls(r.link.core, link.core)
            && (r.ret == SUCCESS <==> Known(link.core, resid) || length > DATA_MAX_BYTES)
  {
    var bytes := I2cFrame(resid, SetWrite(cmd), payload, length);
    var started := link.(i2c := OnWriteStart(link.i2c));
    if bytes != [] && !Known(link.core, resid) {
      RefusedAtOnce(started, bytes);
    } else {
      if bytes != [] {
        forall k | 0 <= k < |bytes|
          ensures SendBytes(started.core, started.i2c, bytes[..k]).ret == SUCCESS
        {
          MachineRefinesParser(link.core, link.i2c, bytes[..k]);
        }
        MachineRefinesParser(link.core, link.i2c, bytes);
        SentWhole(started, bytes);
      }
      StatusReadSucceeds(MasterWrite(link, bytes, true, host.stopOnNack).link, host.stopOnNack);
    }
  }

  lemma {:induction false} NeverIdle(link: Link, bytes: seq<byte>)
    requires link.i2c.state != Idle
    ensures SendUntilNack(link, bytes).link.i2c.state != Idle
    ensures !SendUntilNack(link, bytes).acked || SendUntilNack(link, bytes).count == |bytes|
    decreases |bytes|
  {
    if bytes == [] {
    } else {
      NeverIdle(link, bytes[..|bytes| - 1]);
    }
  }

  lemma {:induction false} SendKeepsTable(link: Link, bytes: seq<byte>)
    ensures SendUntilNack(link, bytes).link.core.table == link.core.table
    decreases |bytes|
  {
    if bytes == [] {
    } else {
      SendKeepsTable(link, bytes[..|bytes| - 1]);
    }
  }

  /** A read call ends with a stop exactly when it succeeds or the master stops after refusals. */
  lemma ReadEndsIdleIff(link: Link, resid: byte, cmd: byte, length: nat, stopOnNack: bool)
    ensures var r := HostRead(link, resid, cmd, length, stopOnNack);
            r.link.i2c.state == Idle <==> stopOnNack || r.ret == SUCCESS
  {
    var frame := I2cFrame(resid, SetRead(cmd), None, length);
    if frame == [] {
    } else {
      NeverIdle(link.(i2c := OnWriteStart(link.i2c)), frame);
    }
  }

  /** Every write call ends with a stop, whatever happened before it. */
  lemma WriteEndsIdle(link: Link, resid: byte, cmd: byte, payload: Option<seq<byte>>, length: nat, host: Host)
    requires Ready(link.core) && Holds(payload, length)
    ensures HostWrite(link, resid, cmd, payload, length, host).link.i2c.state == Idle
  {
    var s := MasterWrite(link, I2cFrame(resid, SetWrite(cmd), payload, length), true, host.stopOnNack);
    SendKeepsTable(link.(i2c := OnWriteStart(link.i2c)), I2cFrame(resid, SetWrite(cmd), payload, length));
    StatusReadSucceeds(s.link, host.stopOnNack);
    ReadEndsIdleIff(s.link, SPECIAL_RESID, GET_LAST_COMMAND_STATUS, 1, host.stopOnNack);
  }

  lemma VersionQuery(link: Link, stopOnNack: bool)
    requires Ready(link.core)
    ensures var r := HostRead(link, SPECIAL_RESID, GET_VERSION, 1, stopOnNack);
            r.ret == SUCCESS && r.data == [CONTROL_VERSION] && r.link.core.calls == link.core.calls
  {
    HostReadIsAtomic(link, SPECIAL_RESID, GET_VERSION, 1, stopOnNack);
  }

  // ----- Sessions -----

  predicate Sendable(c: Command) {
    match c
    case Write(_, _, payload) => |payload| <= DATA_MAX_BYTES
    case Read(_, _, length) => 1 <= length <= DATA_MAX_BYTES
  }

  function HostCall(link: Link, c: Command, host: Host): HostResult {
    match c
    case Write(resid, cmd, payload) => HostWrite(link, resid, cmd, Some(payload), |payload|, host)
    case Read(resid, cmd, length) => HostRead(link, resid, cmd, length, host.stopOnNack)
  }

  function Session(link: Link, cs: seq<Command>, host: Host): (Link, seq<Reported>)
    decreases |cs|
  {
    if cs == [] then (link, [])
    else
      var r := HostCall(link, cs[0], host);
      var (last, reports) := Session(r.link, cs[1..], host);
      (last, [Reported(r.ret, r.data)] + reports)
  }

  predicate Faithful(c: Command, p: Performed, r: Reported) {
    match c
    case Write(_, _, _) => r.ret == if p.ret == SUCCESS then SUCCESS else ERROR
    case Read(resid, cmd, length) =>
      ReadReport(resid, SetRead(cmd), length, r.ret, r.data, ReadBack(p.after, p.ret, p.data))
  }

  lemma HostCallIsAtomic(link: Link, core: Core, c: Command, host: Host)
    requires Ready(core) && SameCalls(link.core, core) && Sendable(c)
    ensures var r := HostCall(link, c, host);
            var p := Perform(core, c);
            SameCalls(r.link.core, p.after) && Ready(p.after) && Faithful(c, p, Reported(r.ret, r.data))
  {
    match c
    case Write(resid, cmd, payload) =>
      HostWriteIsAtomic(link, resid, cmd, Some(payload), |payload|, host);
      assert Announced(Some(payload), |payload|) == payload;
    case Read(resid, cmd, length) => HostReadIsAtomic(link, resid, cmd, length, host.stopOnNack);
  }

  /**
   * Main result: from any record, over a bus that stops at the first refused byte, a session of any length makes
   * exactly the task calls of its commands performed atomically, in order, and each report is faithful.
   */
  lemma {:induction false} SessionIsAtomic(link: Link, core: Core, cs: seq<Command>, host: Host)
    requires Ready(core) && SameCalls(link.core, core)
    requires forall c :: c in cs ==> Sendable(c)
    ensures var (last, reports) := Session(link, cs, host);
            var performed := PerformAll(core, cs);
            && SameCalls(last.core, Final(core, cs))
            && |reports| == |performed| == |cs|
            && forall i :: 0 <= i < |cs| ==> Faithful(cs[i], performed[i], reports[i])
    decreases |cs|
  {
    if cs == [] {
    } else {
      var r := HostCall(link, cs[0], host);
      HostCallIsAtomic(link, core, cs[0], host);
      SessionIsAtomic(r.link, Perform(core, cs[0]).after, cs[1..], host);
    }
  }

  /** Each report is the answer of the task that the command reached, failures being reported as such. */
  predicate Answered(cs: seq<Command>, made: seq<Call>, reports: seq<Reported>)
    requires |made| == |reports| == |cs|
  {
    forall i :: 0 <= i < |cs| ==>
      && (reports[i].ret == SUCCESS <==> made[i].reply.ret == SUCCESS)
      && (cs[i].Read? && reports[i].ret == SUCCESS ==> reports[i].data == made[i].reply.data)
  }

  lemma FaithfulIsAnswered(core: Core, cs: seq<Command>, made: seq<Call>, reports: seq<Reported>)
    requires Registered(core, cs) && MadeInOrder(core, cs, made) && |reports| == |cs|
    requires forall i :: 0 <= i < |cs| ==> Faithful(cs[i], PerformAll(core, cs)[i], reports[i])
    ensures Answered(cs, made, reports)
  {
  }

  /** On registered resources: the task calls are exactly the commands, in order, and the reports are the tasks'. */
  lemma SessionTrace(link: Link, cs: seq<Command>, host: Host)
    requires Ready(link.core) && Registered(link.core, cs)
    requires forall c :: c in cs ==> Sendable(c)
    ensures var (last, reports) := Session(link, cs, host);
            && CallsAre(link.core, cs, last.core.calls) && |reports| == |cs|
            && Answered(cs, last.core.calls[|link.core.calls|..], reports)
  {
    SessionIsAtomic(link, link.core, cs, host);
    PerformedCalls(link.core, cs);
    var (last, reports) := Session(link, cs, host);
    FaithfulIsAnswered(link.core, cs, last.core.calls[|link.core.calls|..], reports);
  }
}

/** The slave's callback loop, the master's bus operations, and the host calls as they run. */
module I2cHostDriver {
  import opened ControlTypes
  import opened ResourceTables
  import opened ControlCore
  import opened Frames
  import opened I2cMachine
  import opened I2cTransactions
  import opened I2cHost

  // ----- The callbacks: success becomes an acknowledgement -----

  method AckWriteRequest(slave: I2cSlave) returns (ack: bool)
    requires slave.Valid()
    modifies slave
    ensures ack && slave.View() == OnWriteStart(old(slave.View()))
  {
    var ret := slave.ProcessWriteStart();
    ack := ret == SUCCESS;
  }

  method AckReadRequest(slave: I2cSlave) returns (ack: bool)
    requires slave.Valid() && (slave.state == WriteSize ==> slave.payloadLenFromHeader <= DATA_MAX_BYTES)
    modifies slave, slave.payload, slave.control
    ensures var s := OnReadStart(old(slave.control.View()), old(slave.View()));
            slave.control.View() == s.core && slave.View() == s.i2c && (ack <==> s.ret == SUCCESS)
  {
    var ret := slave.ProcessReadStart();
    ack := ret == SUCCESS;
  }

  method MasterSentData(slave: I2cSlave, data: byte) returns (ack: bool)
    requires slave.Valid() && InRange(slave.View())
    modifies slave, slave.payload, slave.control
    ensures var s := OnWriteData(old(slave.control.View()), old(slave.View()), data);
            slave.control.View() == s.core && slave.View() == s.i2c && (ack <==> s.ret == SUCCESS)
  {
    var ret := slave.ProcessWriteData(data);
    ack := ret == SUCCESS;
  }

  // ----- The master -----

  lemma {:induction false} NackSticks(link: Link, bytes: seq<byte>, k: nat)
    requires k <= |bytes| && !SendUntilNack(link, bytes[..k]).acked
    ensures SendUntilNack(link, bytes) == SendUntilNack(link, bytes[..k])
    decreases |bytes|
  {
    if k < |bytes| {
      var init := bytes[..|bytes| - 1];
      assert init[..k] == bytes[..k];
      NackSticks(link, init, k);
    } else {
      assert bytes[..k] == bytes;
    }
  }

  lemma {:induction false} AckedSoFar(link: Link, bytes: seq<byte>)
    requires SendUntilNack(link, bytes).acked
    ensures var s := SendBytes(link.core, link.i2c, bytes);
            SendUntilNack(link, bytes).link == Link(s.core, s.i2c) && SendUntilNack(link, bytes).count == |bytes|
    decreases |bytes|
  {
    if bytes == [] {
    } else {
      AckedSoFar(link, bytes[..|bytes| - 1]);
    }
  }

  lemma NextByte(core: Core, before: I2c, bytes: seq<byte>, k: nat)
    requires k < |bytes| && !Overruns(core.table, bytes)
    requires SendUntilNack(Link(core, OnWriteStart(before)), bytes[..k]).acked
    ensures var s := SendUntilNack(Link(core, OnWriteStart(before)), bytes[..k]);
            var step := OnWriteData(s.link.core, s.link.i2c, bytes[k]);
            && InRange(s.link.i2c)
            && SendUntilNack(Link(core, OnWriteStart(before)), bytes[..k + 1])
               == Sent(Link(step.core, step.i2c), step.ret == SUCCESS, s.count + 1)
  {
    AckedSoFar(Link(core, OnWriteStart(before)), bytes[..k]);
    MachineRefinesParser(core, before, bytes[..k]);
    assert bytes[..k + 1][..k] == bytes[..k];
  }

  /** The master's byte loop, after the start. */
  method SendLoop(slave: I2cSlave, ghost before: I2c, data: array<byte>, length: nat)
    returns (acked: bool, count: nat)
    requires slave.Valid() && length <= data.Length && data != slave.payload
    requires slave.View() == OnWriteStart(before) && !Overruns(slave.control.View().table, data[..length])
    modifies slave, slave.payload, slave.control
    ensures Sent(Link(slave.control.View(), slave.View()), acked, count)
            == SendUntilNack(Link(old(slave.control.View()), OnWriteStart(before)), data[..length])
  {
    ghost var core, bytes := slave.control.View(), data[..length];
    ghost var started := Link(core, OnWriteStart(before));
    acked, count := true, 0;
    var i := 0;
    while i < length && acked
      invariant 0 <= i <= length && data[..length] == bytes
      invariant SendUntilNack(started, bytes[..i]) == Sent(Link(slave.control.View(), slave.View()), acked, count)
    {
      NextByte(core, before, bytes, i);
      acked := MasterSentData(slave, data[i]);
      count := count + 1;
      i := i + 1;
    }
    if acked {
      assert bytes[..i] == bytes;
    } else {
      NackSticks(started, bytes, i);
    }
  }

  method BusWrite(slave: I2cSlave, data: array<byte>, length: nat, stop: bool, stopOnNack: bool)
    returns (acked: bool, count: nat)
    requires slave.Valid() && length <= data.Length
    requires data != slave.payload
    requires !Overruns(slave.control.View().table, data[..length])
    modifies slave, slave.payload, slave.control
    ensures Sent(Link(slave.control.View(), slave.View()), acked, count)
            == MasterWrite(Link(old(slave.control.View()), old(slave.View())), data[..length], stop, stopOnNack)
  {
    ghost var before := slave.View();
    var started := AckWriteRequest(slave);
    acked, count := SendLoop(slave, before, data, length);
    if stop || (!acked && stopOnNack) {
      var ret := slave.ProcessStop();
    }
  }

  /** The slave is asked for `n` bytes in a row. */
  method ClockIn(slave: I2cSlave, data: array<byte>, n: nat)
    requires slave.Valid() && n <= data.Length && data != slave.payload && data != slave.control.table.entries
    requires forall j :: 0 <= j < n ==> InRange(ReadBytes(slave.View(), j).0)
    modifies slave, data
    ensures var (after, handed) := ReadBytes(old(slave.View()), n);
            slave.View() == after && data[..n] == Values(handed)
  {
    ghost var started := slave.View();
    ghost var handed: seq<Option<byte>> := [];
    var i := 0;
    while i < n
      invariant 0 <= i <= n
      invariant ReadBytes(started, i) == (slave.View(), handed)
      invariant data[..i] == Values(handed)
    {
      var ret, byteRead := slave.ProcessReadData();
      data[i] := byteRead.GetOr(0);
      handed := handed + [byteRead];
      i := i + 1;
      assert data[..i] == data[..i - 1] + [byteRead.GetOr(0)];
    }
  }

  method BusRead(slave: I2cSlave, data: array<byte>, n: nat, stopOnNack: bool) returns (acked: bool)
    requires slave.Valid() && data != slave.payload && data != slave.control.table.entries
    requires slave.state == WriteSize ==>
               && slave.payloadLenFromHeader <= DATA_MAX_BYTES && n <= data.Length
               && (slave.payloadLenFromHeader >= 1 || n <= DATA_MAX_BYTES)
    modifies slave, slave.payload, slave.control, data
    ensures var r := MasterRead(Link(old(slave.control.View()), old(slave.View())), n, stopOnNack);
            && slave.control.View() == r.link.core && slave.View() == r.link.i2c
            && acked == r.acked && (acked ==> n <= data.Length && data[..n] == r.data)
  {
    acked := AckReadRequest(slave);
    if acked {
      ReadBytesInRangeIff(slave.View(), n);
      ClockIn(slave, data, n);
      var ret := slave.ProcessStop();
    } else if stopOnNack {
      var ret := slave.ProcessStop();
    }
  }

  // ----- The host calls -----

  /** Builds the frame and sends it; whether every byte of it was acknowledged. */
  method SendFrame(slave: I2cSlave, data: array<byte>, resid: byte, cmd: byte, payload: array?<byte>, length: nat,
                   stop: bool, stopOnNack: bool)
    returns (accepted: bool)
    requires slave.Valid() && data.Length == TRANSACTION_MAX_BYTES && Holds(Bytes(payload), length)
    requires payload != data && data != slave.payload && data != slave.control.table.entries
    modifies slave, slave.payload, slave.control, data
    ensures var frame := I2cFrame(resid, cmd, old(Bytes(payload)), length);
            var s := MasterWrite(Link(old(slave.control.View()), old(slave.View())), frame, stop, stopOnNack);
            && slave.control.View() == s.link.core && slave.View() == s.link.i2c
            && (accepted <==> s.acked && s.count == |frame|)
  {
    ghost var frame := I2cFrame(resid, cmd, Bytes(payload), length);
    var dataLen := BuildI2cData(data, resid, cmd, payload, length);
    assert data[..dataLen] == frame;
    var acked, numBytesSent := BusWrite(slave, data, dataLen, stop, stopOnNack);
    accepted := acked && numBytesSent == dataLen;
  }

  /** After an acknowledged read frame the machine holds its length, or it was never told one. */
  lemma ReadHeaderAccepted(core: Core, before: I2c, resid: byte, cmd: byte, length: nat, stopOnNack: bool)
    requires IsRead(cmd)
    requires MasterWrite(Link(core, before), I2cFrame(resid, cmd, None, length), false, stopOnNack).acked
    ensures var i2c := MasterWrite(Link(core, before), I2cFrame(resid, cmd, None, length), false, stopOnNack).link.i2c;
            i2c.state == WriteSize ==> i2c.declared == length <= DATA_MAX_BYTES
  {
  }

  method ControlReadCommand(slave: I2cSlave, resid: byte, cmd: byte, payload: array<byte>, length: nat,
                            stopOnNack: bool)
    returns (ret: byte)
    requires slave.Valid() && length <= payload.Length
    requires payload != slave.payload && payload != slave.control.table.entries
    modifies slave, slave.payload, slave.control, payload
    ensures var r := HostRead(Link(old(slave.control.View()), old(slave.View())), resid, cmd, length, stopOnNack);
            && slave.control.View() == r.link.core && slave.View() == r.link.i2c && ret == r.ret
            && payload[..] == if ret == SUCCESS then Overlay(old(payload[..]), r.data) else old(payload[..])
  {
    ghost var core, before := slave.control.View(), slave.View();
    var data := new byte[TRANSACTION_MAX_BYTES](i => 0);
    var accepted := SendFrame(slave, data, resid, SetRead(cmd), payload, length, false, stopOnNack);
    if !accepted {
      return ERROR;
    }
    ReadHeaderAccepted(core, before, resid, SetRead(cmd), length, stopOnNack);
    var acked := BusRead(slave, data, length, stopOnNack);
    if !acked {
      return ERROR;
    }
    CopyBytes(payload, data, length);
    ret := SUCCESS;
  }

  method ControlWriteCommand(slave: I2cSlave, resid: byte, cmd: byte, payload: array?<byte>, length: nat,
                             host: Host)
    returns (ret: byte)
    requires slave.Valid() && Holds(Bytes(payload), length)
    requires payload != slave.payload && payload != slave.control.table.entries
    modifies slave, slave.payload, slave.control
    ensures var r := HostWrite(Link(old(slave.control.View()), old(slave.View())), resid, cmd,
                               old(Bytes(payload)), length, host);
            slave.control.View() == r.link.core && slave.View() == r.link.i2c && ret == r.ret
  {
    var data := new byte[TRANSACTION_MAX_BYTES](i => 0);
    var accepted := SendFrame(slave, data, resid, SetWrite(cmd), payload, length, true, host.stopOnNack);
    if !accepted {
      return ERROR;
    }
    var status := new byte[1](i => host.stale);
    var ignored := ControlReadCommand(slave, SPECIAL_RESID, GET_LAST_COMMAND_STATUS, status, 1, host.stopOnNack);
    return status[0];
  }
}
