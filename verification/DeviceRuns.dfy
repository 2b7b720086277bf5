/** Safety over every run of the device, on every transport. */
module DeviceRuns {
  import opened ControlTypes
  import opened ResourceTables
  import opened RegistrationTheorems
  import opened ControlCore
  import I2c = I2cMachine
  import I2cRuns
  import Spi = SpiMachine
  import SpiTransactions
  import Usb
  import Xscope

  datatype Device = Device(core: Core, i2c: I2c.I2c, spi: Spi.Spi)

  datatype Event =
    | I2cEvent(i2c: I2cRuns.Event)
    | SpiEvent(spi: SpiTransactions.Event)
    | SpiEnd
    | UsbSet(windex: nat, wvalue: nat, data: seq<byte>)
    | UsbGet(windex: nat, wvalue: nat, buffer: seq<byte>)
    | Upload(packet: seq<byte>)

  /** Uploads that announce more payload than their buffer holds are outside the model and have no effect here. */
  function React(d: Device, e: Event): Device {
    match e
    case I2cEvent(i2c) =>
      var r := I2cRuns.React(I2cRuns.Device(d.core, d.i2c), i2c);
      d.(core := r.core, i2c := r.i2c)
    case SpiEvent(spi) =>
      var t := SpiTransactions.React(SpiTransactions.Trace(d.core, d.spi, []), spi);
      d.(core := t.core, spi := t.spi)
    case SpiEnd => var r := Spi.OnEnd(d.core, d.spi); d.(core := r.core, spi := r.spi)
    case UsbSet(windex, wvalue, data) => d.(core := Usb.UsbSet(d.core, windex, wvalue, data).core)
    case UsbGet(windex, wvalue, buffer) => d.(core := Usb.UsbGet(d.core, windex, wvalue, buffer).core)
    case Upload(packet) =>
      if Xscope.Fits(d.core, packet) then d.(core := Xscope.RunUpload(d.core, packet).core) else d
  }

  function Run(d: Device, events: seq<Event>): Device {
    if events == [] then d else React(Run(d, events[..|events| - 1]), events[|events| - 1])
  }

  /** The device after start-up, when interface `j` has listed `lists[j]`. */
  function Booted(tasks: Tasks, lists: seq<seq<byte>>): Device {
    Device(Core(tasks, Register(Initialised(SPECIAL_RESID), lists).0, 0, []), I2c.INITIAL, Spi.INITIAL)
  }

  /** Start-up as an application does it: the statics, control_init, then control_register_resources. */
  method Boot(tasks: Tasks, lists: seq<seq<byte>>)
    returns (control: Control, i2c: I2c.I2cSlave, spi: Spi.SpiSlave, ret: byte)
    ensures control.Valid() && i2c.Valid() && spi.Valid() && i2c.control == spi.control == control
    ensures i2c.payload != spi.payload
    ensures Device(control.View(), i2c.View(), spi.View()) == Booted(tasks, lists)
    ensures ret == Register(Initialised(SPECIAL_RESID), lists).1
  {
    control := new Control(tasks);
    i2c := new I2c.I2cSlave(control);
    spi := new Spi.SpiSlave(control);
    ret := control.Init();
    ret := control.RegisterResources(lists);
  }

  // ----- Routing -----

  /** The task listed the resource, and only an empty write can carry the read bit (a zero-length I2C read header). */
  predicate Routed(call: Call, lists: seq<seq<byte>>) {
    var resid, ifnum, read := call.request.resid, call.request.ifnum, IsRead(call.request.cmd);
    && resid != SPECIAL_RESID && ifnum != IFNUM_RESERVED && ifnum < |lists| && resid in lists[ifnum]
    && (call.request.ReadFrom? ==> read)
    && (call.request.WriteTo? && read ==> call.request.payload == [])
  }

  ghost predicate CoreRouted(core: Core, lists: seq<seq<byte>>) {
    && RoutesOnlyTo(core.table, lists)
    && forall call :: call in core.calls ==> Routed(call, lists)
  }

  predicate I2cBound(table: Table, i2c: I2c.I2c) {
    && (i2c.state == I2c.WriteData ==> !IsRead(i2c.cmd))
    && (i2c.state in {I2c.WriteResid, I2c.WriteCmd, I2c.WriteSize, I2c.WriteData} ==>
          Search(table, i2c.resid) == Some(i2c.ifnum))
  }

  predicate SpiBound(table: Table, spi: Spi.Spi) {
    && (spi.state in {Spi.WriteCmdRecvd, Spi.WriteData} ==> !IsRead(spi.cmd))
    && (spi.state in {Spi.ReadCmdRecvd, Spi.ReadDataStart} ==> IsRead(spi.cmd))
    && (spi.state in {Spi.ResRecvd, Spi.WriteCmdRecvd, Spi.WriteData, Spi.ReadCmdRecvd, Spi.ReadDataStart} ==>
          Search(table, spi.resid) == Some(spi.ifnum))
  }

  ghost predicate RoutingInv(d: Device, lists: seq<seq<byte>>) {
    CoreRouted(d.core, lists) && I2cBound(d.core.table, d.i2c) && SpiBound(d.core.table, d.spi)
  }

  lemma WriteStaysRouted(core: Core, ifnum: byte, resid: byte, cmd: byte, payload: seq<byte>, lists: seq<seq<byte>>)
    requires CoreRouted(core, lists) && Search(core.table, resid) == Some(ifnum)
    requires IsRead(cmd) ==> payload == []
    ensures var w := RunWrite(core, ifnum, resid, cmd, payload);
            CoreRouted(w.core, lists) && w.core.table == core.table
  {
  }

  lemma ReadStaysRouted(core: Core, ifnum: byte, resid: byte, cmd: byte, buffer: seq<byte>, lists: seq<seq<byte>>)
    requires CoreRouted(core, lists) && Search(core.table, resid) == Some(ifnum) && IsRead(cmd)
    ensures var r := RunRead(core, ifnum, resid, cmd, buffer);
            CoreRouted(r.core, lists) && r.core.table == core.table
  {
  }

  lemma I2cStaysRouted(core: Core, i2c: I2c.I2c, e: I2cRuns.Event, lists: seq<seq<byte>>)
    requires CoreRouted(core, lists) && I2cBound(core.table, i2c)
    ensures var r := I2cRuns.React(I2cRuns.Device(core, i2c), e);
            CoreRouted(r.core, lists) && r.core.table == core.table && I2cBound(core.table, r.i2c)
  {
  }

  lemma SpiStaysRouted(core: Core, spi: Spi.Spi, e: SpiTransactions.Event, lists: seq<seq<byte>>)
    requires CoreRouted(core, lists) && SpiBound(core.table, spi)
    ensures var t := SpiTransactions.React(SpiTransactions.Trace(core, spi, []), e);
            CoreRouted(t.core, lists) && t.core.table == core.table && SpiBound(core.table, t.spi)
  {
  }

  lemma ReactKeepsRouting(d: Device, e: Event, lists: seq<seq<byte>>)
    requires RoutingInv(d, lists)
    ensures RoutingInv(React(d, e), lists)
  {
    match e
    case I2cEvent(i2c) => I2cStaysRouted(d.core, d.i2c, i2c, lists);
    case SpiEvent(spi) => SpiStaysRouted(d.core, d.spi, spi, lists);
    case SpiEnd =>
      if d.spi.state == Spi.WriteData {
        var payload := d.spi.payload[..Min(d.spi.sent, DATA_MAX_BYTES)];
        WriteStaysRouted(d.core, d.spi.ifnum, d.spi.resid, d.spi.cmd, payload, lists);
      }
    case UsbSet(windex, wvalue, data) =>
      if Known(d.core, windex % 256) && !IsRead(wvalue % 256) {
        WriteStaysRouted(d.core, Search(d.core.table, windex % 256).value, windex % 256, wvalue % 256, data, lists);
      }
    case UsbGet(windex, wvalue, buffer) =>
      if Known(d.core, windex % 256) && IsRead(wvalue % 256) {
        ReadStaysRouted(d.core, Search(d.core.table, windex % 256).value, windex % 256, wvalue % 256, buffer, lists);
      }
    case Upload(packet) =>
      if Xscope.Fits(d.core, packet) && Known(d.core, packet[0]) {
        var ifnum, payload := Search(d.core.table, packet[0]).value, packet[4..4 + packet[2]];
        if IsRead(packet[1]) {
          ReadStaysRouted(d.core, ifnum, packet[0], packet[1], payload, lists);
        } else {
          WriteStaysRouted(d.core, ifnum, packet[0], packet[1], payload, lists);
        }
      }
  }

  /**
   * Main result: in every run of every transport after registration, successful or not, each task call goes to an
   * existing interface that listed the resource; the special resource and the reserved number never reach a task.
   */
  lemma {:induction false} RoutingIsSafe(tasks: Tasks, lists: seq<seq<byte>>, events: seq<Event>)
    requires |lists| <= 255
    ensures RoutingInv(Run(Booted(tasks, lists), events), lists)
    decreases |events|
  {
    if events == [] {
      RegistrationRoutes(lists);
    } else {
      var init := events[..|events| - 1];
      RoutingIsSafe(tasks, lists, init);
      ReactKeepsRouting(Run(Booted(tasks, lists), init), events[|events| - 1], lists);
    }
  }

  // ----- The tasks' own answers -----

  /** Every call of the trace was answered by the tasks, knowing the calls before it. */
  predicate Genuine(tasks: Tasks, calls: seq<Call>) {
    calls == [] ||
    var before := calls[..|calls| - 1];
    Genuine(tasks, before) && AnsweredBy(tasks, before, calls[|calls| - 1])
  }

  /** The trace is as before, or longer by one genuine call. */
  ghost predicate AtMostOneMore(before: Core, after: Core) {
    && after.tasks == before.tasks
    && (after.calls == before.calls
        || (after.calls != [] && after.calls[..|after.calls| - 1] == before.calls
            && AnsweredBy(before.tasks, before.calls, after.calls[|after.calls| - 1])))
  }

  lemma WriteCallsOnce(core: Core, ifnum: byte, resid: byte, cmd: byte, payload: seq<byte>)
    ensures AtMostOneMore(core, RunWrite(core, ifnum, resid, cmd, payload).core)
  {
    AnswerIsTheTasks(core, WriteTo(ifnum, resid, cmd, payload));
  }

  lemma ReadCallsOnce(core: Core, ifnum: byte, resid: byte, cmd: byte, buffer: seq<byte>)
    ensures AtMostOneMore(core, RunRead(core, ifnum, resid, cmd, buffer).core)
  {
    AnswerIsTheTasks(core, ReadFrom(ifnum, resid, cmd, |buffer|));
  }

  lemma I2cByteCallsOnce(core: Core, i2c: I2c.I2c, data: byte)
    ensures AtMostOneMore(core, I2c.OnWriteData(core, i2c, data).core)
  {
    match i2c.state
    case WriteCmd => WriteCallsOnce(core, i2c.ifnum, i2c.resid, i2c.cmd, i2c.payload[..0]);
    case WriteSize => WriteCallsOnce(core, i2c.ifnum, i2c.resid, i2c.cmd, i2c.payload[0 := data][..1]);
    case WriteData =>
      var stored := I2c.Store(i2c.payload, i2c.sent, data);
      WriteCallsOnce(core, i2c.ifnum, i2c.resid, i2c.cmd, stored[..Min(i2c.sent + 1, DATA_MAX_BYTES)]);
    case _ =>
  }

  lemma I2cCallsOnce(core: Core, i2c: I2c.I2c, e: I2cRuns.Event)
    ensures AtMostOneMore(core, I2cRuns.React(I2cRuns.Device(core, i2c), e).core)
  {
    match e
    case SendByte(data) => I2cByteCallsOnce(core, i2c, data);
    case StartRead =>
      var buffer := i2c.payload[..Min(i2c.declared, DATA_MAX_BYTES)];
      ReadCallsOnce(core, i2c.ifnum, i2c.resid, i2c.cmd, buffer);
    case _ =>
  }

  lemma ReactCallsOnce(d: Device, e: Event)
    ensures AtMostOneMore(d.core, React(d, e).core)
  {
    match e
    case I2cEvent(i2c) => I2cCallsOnce(d.core, d.i2c, i2c);
    case SpiEvent(spi) =>
      var buffer := d.spi.payload[..Spi.Capacity(d.spi.declared)];
      ReadCallsOnce(d.core, d.spi.ifnum, d.spi.resid, d.spi.cmd, buffer);
    case SpiEnd =>
      var payload := d.spi.payload[..Min(d.spi.sent, DATA_MAX_BYTES)];
      WriteCallsOnce(d.core, d.spi.ifnum, d.spi.resid, d.spi.cmd, payload);
    case UsbSet(windex, wvalue, data) =>
      var ifnum := Search(d.core.table, windex % 256).GetOr(0);
      WriteCallsOnce(d.core, ifnum, windex % 256, wvalue % 256, data);
    case UsbGet(windex, wvalue, buffer) =>
      var ifnum := Search(d.core.table, windex % 256).GetOr(0);
      ReadCallsOnce(d.core, ifnum, windex % 256, wvalue % 256, buffer);
    case Upload(packet) =>
      if Xscope.Fits(d.core, packet) && Known(d.core, packet[0]) {
        var ifnum, payload := Search(d.core.table, packet[0]).value, packet[4..4 + packet[2]];
        ReadCallsOnce(d.core, ifnum, packet[0], packet[1], payload);
        WriteCallsOnce(d.core, ifnum, packet[0], packet[1], payload);
      }
  }

  /**
   * Main result: in every run of every transport, every recorded answer is the one the tasks gave to that request after
   * the calls before it. No transport makes up a code or a byte, and no event makes more than one call.
   */
  lemma {:induction false} AnswersAreGenuine(d: Device, events: seq<Event>)
    requires Genuine(d.core.tasks, d.core.calls)
    ensures var core := Run(d, events).core;
            core.tasks == d.core.tasks && Genuine(core.tasks, core.calls)
    ensures |d.core.calls| <= |Run(d, events).core.calls| <= |d.core.calls| + |events|
    decreases |events|
  {
    if events == [] {
    } else {
      var init := events[..|events| - 1];
      AnswersAreGenuine(d, init);
      ReactCallsOnce(Run(d, init), events[|events| - 1]);
    }
  }

  // ----- The status register -----

  /** The code an event returned, if it handled a write: an I2C byte, a USB set, or a write carried out. */
  function Verdict(d: Device, e: Event): Option<byte> {
    match e
    case I2cEvent(SendByte(data)) => Some(I2c.OnWriteData(d.core, d.i2c, data).ret)
    case SpiEnd =>
      if d.spi.state == Spi.WriteData && d.spi.sent >= d.spi.declared then Some(Spi.OnEnd(d.core, d.spi).ret) else None
    case UsbSet(windex, wvalue, data) => Some(Usb.UsbSet(d.core, windex, wvalue, data).ret)
    case Upload(packet) =>
      if Xscope.Fits(d.core, packet) && Known(d.core, packet[0]) && !IsRead(packet[1]) then
        Some(Xscope.RunUpload(d.core, packet).ret)
      else
        None
    case _ => None
  }

  /** The last such code of a run. */
  function LastVerdict(d: Device, events: seq<Event>): byte {
    if events == [] then d.core.lastStatus
    else
      var init := events[..|events| - 1];
      match Verdict(Run(d, init), events[|events| - 1])
      case Some(code) => code
      case None => LastVerdict(d, init)
  }

  /**
   * The register holds the last verdict after every run. So no read changes it, and over SPI and XSCOPE neither does
   * a rejected header or an incomplete write.
   */
  lemma {:induction false} StatusIsLastVerdict(d: Device, events: seq<Event>)
    ensures Run(d, events).core.lastStatus == LastVerdict(d, events)
    decreases |events|
  {
    if events == [] {
    } else {
      StatusIsLastVerdict(d, events[..|events| - 1]);
    }
  }

  lemma {:induction false} TableNeverChanges(d: Device, events: seq<Event>)
    ensures Run(d, events).core.table == d.core.table
    decreases |events|
  {
    if events == [] {
    } else {
      TableNeverChanges(d, events[..|events| - 1]);
    }
  }

  /** A one-byte status read returns exactly it and changes nothing. */
  lemma StatusReadBack(d: Device, events: seq<Event>)
    requires Ready(d.core)
    ensures var core := Run(d, events).core;
            && AtomicRead(core, SPECIAL_RESID, GET_LAST_COMMAND_STATUS, 1)
               == ReadBack(core, SUCCESS, [LastVerdict(d, events)])
            && forall buffer :: |buffer| == 1 ==>
                 Usb.UsbGet(core, SPECIAL_RESID, GET_LAST_COMMAND_STATUS, buffer)
                 == ReadBack(core, SUCCESS, [LastVerdict(d, events)])
  {
    StatusIsLastVerdict(d, events);
    TableNeverChanges(d, events);
  }

  /** Corollary of the routing: the special resource refuses writes and answers only the two one-byte reads. */
  lemma SpecialResourceIsInternal(core: Core, cmd: byte, payload: seq<byte>, length: nat)
    requires Ready(core)
    ensures AtomicWrite(core, SPECIAL_RESID, cmd, payload) == Written(core.(lastStatus := BAD_COMMAND), BAD_COMMAND)
    ensures var r := AtomicRead(core, SPECIAL_RESID, cmd, length);
            && r.core == core
            && (r.ret == SUCCESS <==> length == 1 && cmd in {GET_VERSION, GET_LAST_COMMAND_STATUS})
            && (r.ret != SUCCESS ==> r.ret == BAD_COMMAND && r.data == Zeros(length))
  {
  }
}
