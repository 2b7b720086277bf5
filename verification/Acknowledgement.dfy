/** Whether the host learns the outcome of its command: on each transport, exactly when. */
module Acknowledgement {
  import opened ControlTypes
  import opened ResourceTables
  import opened RegistrationTheorems
  import opened ControlCore
  import opened Frames
  import DeviceRuns
  import I2cHost
  import I2cMachine
  import SpiHost
  import SpiMachine
  import TransportIndependence
  import Usb
  import Xscope

  /** The write was carried out as announced, by one task call, and the task accepted it. */
  ghost predicate Accepted(before: Core, after: Core, resid: byte, cmd: byte, payload: seq<byte>) {
    Known(before, resid) &&
    var request := WriteTo(Search(before.table, resid).value, resid, cmd, payload);
    after.calls == before.calls + [Call(request, Reply(SUCCESS, []))]
  }

  lemma AtomicSuccessIsAcceptance(core: Core, resid: byte, cmd: byte, payload: seq<byte>)
    ensures var w := AtomicWrite(core, resid, cmd, payload);
            w.ret == SUCCESS <==> Accepted(core, w.core, resid, cmd, payload)
  {
    var calls := AtomicWrite(core, resid, cmd, payload).core.calls;
    if Known(core, resid) && resid != SPECIAL_RESID {
      assert calls[|core.calls|].reply.ret == AtomicWrite(core, resid, cmd, payload).ret;
    }
  }

  /** A device on which interface 0 registered resource 1 and nothing has happened since. */
  function Started(tasks: Tasks): Core {
    DeviceRuns.Booted(tasks, [[1]]).core
  }

  lemma StartedKnows(tasks: Tasks)
    ensures var core := Started(tasks);
            && Ready(core) && Search(core.table, 1) == Some(0) && !Known(core, 2)
            && core.lastStatus == SUCCESS && core.calls == []
  {
    var lists: seq<seq<byte>> := [[1]];
    RegistrationSucceedsIff(lists);
    RegisteredSoFar(lists, 1);
    RegistrationIsMap(lists, 1, 0);
    var t := Register(Fresh(), lists).0;
    if t.entries[2] < IFNUM_RESERVED {
      assert false;
    }
  }

  // ----- SPI -----

  /**
   * The result of a write says whether it was accepted exactly when it reached a known resource as announced, or the
   * previous command had failed. A failure is never reported for an accepted write.
   */
  lemma SpiWriteReportIff(bus: SpiHost.Bus, link: SpiHost.Link, resid: byte, cmd: byte, payload: Option<seq<byte>>,
                          length: nat)
    requires SpiHost.GoodBus(bus) && SpiHost.AtRest(link) && !IsRead(cmd)
    requires Holds(payload, length) && SpiFits(cmd, payload, length)
    ensures var r := SpiHost.HostWrite(bus, link, resid, cmd, payload, length);
            var accepted := Accepted(link.core, r.link.core, resid, cmd, Announced(payload, length));
            && ((r.ret == SUCCESS <==> accepted) <==>
                  (Known(link.core, resid) && SpiHost.Delivers(payload, length)) || link.core.lastStatus != SUCCESS)
            && (accepted ==> r.ret == SUCCESS)
  {
    SpiHost.HostWriteOutcome(bus, link, resid, cmd, payload, length);
    AtomicSuccessIsAcceptance(link.core, resid, cmd, Announced(payload, length));
  }

  /** On a freshly started device a write to an unregistered resource, and a null payload, are reported as success. */
  lemma SpiLostWrites(tasks: Tasks, bus: SpiHost.Bus)
    requires SpiHost.GoodBus(bus)
    ensures var link := SpiHost.Link(Started(tasks), SpiMachine.INITIAL, 0);
            var unknown := SpiHost.HostWrite(bus, link, 2, 0, Some([]), 0);
            var padded := SpiHost.HostWrite(bus, link, 1, 0, None, 3);
            && unknown.ret == SUCCESS && unknown.link.core.calls == []
            && padded.ret == SUCCESS && padded.link.core.calls == []
  {
    StartedKnows(tasks);
    var link := SpiHost.Link(Started(tasks), SpiMachine.INITIAL, 0);
    SpiHost.HostWriteOutcome(bus, link, 2, 0, Some([]), 0);
    SpiHost.HostWriteOutcome(bus, link, 1, 0, None, 3);
  }

  /**
   * Every read call that fits both buffers: its result, always success, belongs to the read that was asked for exactly
   * when that read was made, which a length of 256 is not, and succeeded.
   */
  lemma SpiReadReportIff(bus: SpiHost.Bus, link: SpiHost.Link, resid: byte, cmd: byte, payload: seq<byte>, length: nat)
    requires SpiHost.GoodBus(bus) && SpiHost.AtRest(link) && IsRead(cmd)
    requires length <= |payload| && length <= TRANSACTION_MAX_BYTES
    requires !SpiHost.Oversized(link.core, resid, cmd, length)
    ensures var r := SpiHost.HostRead(bus, link, resid, cmd, payload, length);
            var atomic := AtomicRead(link.core, resid, cmd, length);
            && (length <= DATA_MAX_BYTES ==> r.link.core == atomic.core && r.data == atomic.data)
            && (r.ret == atomic.ret && r.link.core.calls == atomic.core.calls <==>
                  && length <= DATA_MAX_BYTES
                  && if resid == SPECIAL_RESID then length == 1 && cmd in {GET_VERSION, GET_LAST_COMMAND_STATUS}
                     else Known(link.core, resid)
                          && Answer(link.core, ReadFrom(Search(link.core.table, resid).value, resid, cmd, length)).ret
                             == SUCCESS)
  {
    SpiHost.HostReadOutcome(bus, link, resid, cmd, payload, length);
    if length <= DATA_MAX_BYTES {
      SpiHost.HostReadIsAtomic(bus, link, resid, cmd, payload, length);
    } else if Known(link.core, resid) && resid != SPECIAL_RESID {
      var asked := AtomicRead(link.core, resid, cmd, length).core.calls;
      assert asked[|link.core.calls|].request.length == length;
    }
  }

  /**
   * On a freshly started device an unregistered resource reads as zeros, successfully, and so does a registered one
   * when 256 bytes are asked for: its task is asked for none.
   */
  lemma SpiLostReads(tasks: Tasks, bus: SpiHost.Bus)
    requires SpiHost.GoodBus(bus)
    ensures var link := SpiHost.Link(Started(tasks), SpiMachine.INITIAL, 0);
            var unknown := SpiHost.HostRead(bus, link, 2, READ_BIT, [7], 1);
            var wrapped := SpiHost.HostRead(bus, link, 1, READ_BIT, Zeros(256), 256);
            && unknown.ret == SUCCESS && unknown.data == [0] && AtomicRead(link.core, 2, READ_BIT, 1).ret == BAD_COMMAND
            && wrapped.ret == SUCCESS && wrapped.data == Zeros(256)
            && |wrapped.link.core.calls| == 1 && wrapped.link.core.calls[0].request == ReadFrom(0, 1, READ_BIT, 0)
  {
    StartedKnows(tasks);
    var link := SpiHost.Link(Started(tasks), SpiMachine.INITIAL, 0);
    SpiHost.HostReadIsAtomic(bus, link, 2, READ_BIT, [7], 1);
    SpiHost.HostReadOutcome(bus, link, 1, READ_BIT, Zeros(256), 256);
  }

  // ----- I2C -----

  /**
   * From any record, for every payload and length: the result of a write says whether it was accepted exactly when the
   * frame carries what was announced, or its header names an unknown resource.
   */
  lemma I2cWriteReportIff(link: I2cHost.Link, resid: byte, cmd: byte, payload: Option<seq<byte>>, length: nat,
                          host: I2cHost.Host)
    requires Ready(link.core) && Holds(payload, length)
    ensures var r := I2cHost.HostWrite(link, resid, cmd, payload, length, host);
            var accepted := Accepted(link.core, r.link.core, resid, SetWrite(cmd), Announced(payload, length));
            && ((r.ret == SUCCESS <==> accepted) <==>
                  I2cHost.Complete(payload, length) || (!Known(link.core, resid) && length <= DATA_MAX_BYTES))
            && (accepted ==> r.ret == SUCCESS)
  {
    if I2cHost.Complete(payload, length) {
      I2cHost.HostWriteIsAtomic(link, resid, cmd, payload, length, host);
      AtomicSuccessIsAcceptance(link.core, resid, SetWrite(cmd), Announced(payload, length));
    } else {
      I2cHost.IncompleteWriteReportsSuccessIff(link, resid, cmd, payload, length, host);
    }
  }

  /** On a freshly started device a null payload of length one to a registered resource is reported as success. */
  lemma I2cLostWrite(tasks: Tasks, host: I2cHost.Host)
    ensures var link := I2cHost.Link(Started(tasks), I2cMachine.INITIAL);
            var r := I2cHost.HostWrite(link, 1, 0, None, 1, host);
            r.ret == SUCCESS && r.link.core.calls == []
  {
    StartedKnows(tasks);
    var link := I2cHost.Link(Started(tasks), I2cMachine.INITIAL);
    I2cHost.IncompleteWriteReportsSuccessIff(link, 1, 0, None, 1, host);
  }

  /** Reading the status register over I2C returns it exactly when it says success. */
  lemma I2cStatusReadIff(link: I2cHost.Link, cmd: byte, stopOnNack: bool)
    requires Ready(link.core) && SetRead(cmd) == GET_LAST_COMMAND_STATUS
    ensures var r := I2cHost.HostRead(link, SPECIAL_RESID, cmd, 1, stopOnNack);
            r.ret == SUCCESS && (r.data == [link.core.lastStatus] <==> link.core.lastStatus == SUCCESS)
  {
    I2cHost.HostReadIsAtomic(link, SPECIAL_RESID, cmd, 1, stopOnNack);
  }

  /**
   * After a refused write on a freshly started device the status register says so, but the read of it yields success.
   */
  lemma I2cLostStatus(tasks: Tasks, host: I2cHost.Host)
    ensures var link := I2cHost.Link(Started(tasks), I2cMachine.INITIAL);
            var refused := I2cHost.HostWrite(link, 2, 0, Some([]), 0, host);
            var status := I2cHost.HostRead(refused.link, SPECIAL_RESID, GET_LAST_COMMAND_STATUS, 1, host.stopOnNack);
            && refused.ret == ERROR && refused.link.core.lastStatus == BAD_COMMAND
            && status.ret == SUCCESS && status.data == [SUCCESS]
  {
    StartedKnows(tasks);
    var link := I2cHost.Link(Started(tasks), I2cMachine.INITIAL);
    assert I2cFrame(2, 0, Some([]), 0) == [2, 0, 0];
    I2cHost.RefusedAtOnce(link.(i2c := I2cMachine.OnWriteStart(link.i2c)), [2, 0, 0]);
    var refused := I2cHost.HostWrite(link, 2, 0, Some([]), 0, host);
    I2cStatusReadIff(refused.link, GET_LAST_COMMAND_STATUS, host.stopOnNack);
    I2cHost.StatusReadSucceeds(refused.link, host.stopOnNack);
  }

  /** On a freshly started device a read of length zero calls the task's write handler, with a read code. */
  lemma I2cReadThatWrites(tasks: Tasks, stopOnNack: bool)
    ensures var link := I2cHost.Link(Started(tasks), I2cMachine.INITIAL);
            var calls := I2cHost.HostRead(link, 1, READ_BIT, 0, stopOnNack).link.core.calls;
            calls != [] && calls[0].request == WriteTo(0, 1, READ_BIT, [])
  {
    StartedKnows(tasks);
    I2cHost.HostReadIsAtomic(I2cHost.Link(Started(tasks), I2cMachine.INITIAL), 1, READ_BIT, 0, stopOnNack);
  }

  // ----- USB -----

  /** What a set request gets from the handler and the task, once its data stage is in `data`. */
  predicate SetSucceeds(core: Core, windex: nat, wvalue: nat, data: seq<byte>, status: Usb.XudResult) {
    var resid, cmd := windex % 256, wvalue % 256;
    && status == Usb.Okay && !IsRead(cmd) && resid != SPECIAL_RESID && Known(core, resid)
    && Answer(core, WriteTo(Search(core.table, resid).value, resid, cmd, data)).ret == SUCCESS
  }

  /**
   * Every set request, whatever arrives: the handler's result says whether the write was accepted exactly when it never
   * reached the command, or the command was accepted and the status stage succeeds. A refusal looks like a success.
   */
  lemma UsbSetReportIff(core: Core, buffer: seq<byte>, pending: seq<Usb.Transfer>, request: byte,
                        windex: nat, wvalue: nat, wlength: nat, status: Usb.XudResult)
    requires |buffer| == Usb.EP0_MAX_REQUEST_SIZE && Usb.ValidTransfers(pending)
    ensures var v := Usb.VendorRequestSet(core, buffer, pending, request, windex, wvalue, wlength, status);
            && |v.buffer| == |buffer|
            && if wlength > |buffer| then
                 v.result != Usb.Okay && v.core == core
               else
                 var data := v.buffer[..wlength];
                 ((v.result == Usb.Okay <==> Accepted(core, v.core, windex % 256, wvalue % 256, data)) <==>
                    || request != Usb.VENDOR_REQUEST || Usb.Receive(pending, wlength, 0).result != Usb.Okay
                    || SetSucceeds(core, windex, wvalue, data, status))
  {
    if wlength <= |buffer| {
      Usb.ReceiveStaysInBuffer(pending, wlength, 0);
      var data := Overlay(buffer, Usb.Receive(pending, wlength, 0).bytes)[..wlength];
      AtomicSuccessIsAcceptance(core, windex % 256, wvalue % 256, data);
    }
  }

  /** The same for a whole payload, of which the host can speak. */
  lemma UsbWholeSetReportIff(core: Core, buffer: seq<byte>, payload: seq<byte>, later: seq<Usb.Transfer>,
                             pending: seq<Usb.Transfer>, windex: nat, wvalue: nat, status: Usb.XudResult)
    requires |buffer| == Usb.EP0_MAX_REQUEST_SIZE && |payload| <= Usb.EP0_MAX_REQUEST_SIZE
    requires Usb.ValidTransfers(later) && pending == Usb.Split(payload) + later
    ensures Usb.ValidTransfers(pending)
    ensures var v := Usb.VendorRequestSet(core, buffer, pending, Usb.VENDOR_REQUEST, windex, wvalue, |payload|, status);
            (v.result == Usb.Okay <==> Accepted(core, v.core, windex % 256, wvalue % 256, payload))
            <==> SetSucceeds(core, windex, wvalue, payload, status)
  {
    Usb.SplitPayloadIsDelivered(core, buffer, payload, later, pending, windex, wvalue, status);
    AtomicSuccessIsAcceptance(core, windex % 256, wvalue % 256, payload);
  }

  /** On a freshly started device a set of an unregistered resource gets the result of a success. */
  lemma UsbLostSet(tasks: Tasks, buffer: seq<byte>)
    requires |buffer| == Usb.EP0_MAX_REQUEST_SIZE
    ensures var v := Usb.VendorRequestSet(Started(tasks), buffer, [], Usb.VENDOR_REQUEST, 2, 0, 0, Usb.Okay);
            v.result == Usb.Okay && v.core.calls == []
  {
    StartedKnows(tasks);
  }

  // ----- XSCOPE -----

  /** The response's code byte separates success from failure exactly for a known resource, or if it was nonzero. */
  lemma XscopeCodeByteReportIff(core: Core, buffer: seq<byte>)
    requires Xscope.Fits(core, buffer)
    ensures var u := Xscope.RunUpload(core, buffer);
            (u.buffer[3] == SUCCESS <==> u.ret == SUCCESS) <==> Known(core, buffer[0]) || buffer[3] != SUCCESS
  {
    Xscope.CodeByteIsResultIff(core, buffer);
    if Known(core, buffer[0]) {
      Xscope.ResponseAnswersRequest(core, buffer);
    }
  }

  /** The bytes the task gets are the announced ones: they were sent, or the leftover ones happen to be equal. */
  predicate SameBytes(device: seq<byte>, payload: Option<seq<byte>>, n: nat)
    requires XSCOPE_HEADER_BYTES + n <= |device|
  {
    payload.Some? || Xscope.Leftover(device, n) == Zeros(n)
  }

  /** What the task of a known resource gets. */
  function Delivered(device: seq<byte>, payload: Option<seq<byte>>, n: nat): seq<byte>
    requires Holds(payload, n) && XSCOPE_HEADER_BYTES + n <= |device|
  {
    if payload.Some? then payload.value[..n] else Xscope.Leftover(device, n)
  }

  lemma XscopeKnownWrite(core: Core, host: seq<byte>, device: seq<byte>, resid: byte, cmd: byte,
                         payload: Option<seq<byte>>, n: nat)
    requires |host| == |device| == 4 * XSCOPE_UPLOAD_MAX_WORDS && n <= XSCOPE_UPLOAD_MAX_WORDS
    requires !IsRead(cmd) && Holds(payload, n) && Known(core, resid)
    ensures XscopeFrame(host, resid, cmd, payload, n).Some?
    ensures var (after, size) := XscopeFrame(host, resid, cmd, payload, n).value;
            && size <= |after|
            && var u := Xscope.RunUpload(core, Xscope.Arrived(device, after[..size]));
               && Written(u.core, u.ret) == AtomicWrite(core, resid, cmd, Delivered(device, payload, n))
               && (u.ret == SUCCESS <==> Accepted(core, u.core, resid, cmd, Delivered(device, payload, n)))
               && (Accepted(core, u.core, resid, cmd, Announced(payload, n)) <==>
                     u.ret == SUCCESS && SameBytes(device, payload, n))
  {
    match payload {
      case None => Xscope.NullPayloadWritesLeftover(core, host, device, resid, cmd, n);
      case Some(bytes) =>
        Xscope.BuiltFrameIsAtomicWrite(core, host, device, resid, cmd, bytes[..n]);
        assert bytes[..n][..n] == bytes[..n];
    }
    var w := AtomicWrite(core, resid, cmd, Delivered(device, payload, n));
    AtomicSuccessIsAcceptance(core, resid, cmd, Delivered(device, payload, n));
    if Accepted(core, w.core, resid, cmd, Announced(payload, n)) {
      assert w.core.calls[|core.calls|].request.payload == Announced(payload, n);
    }
  }

  /**
   * Every write frame the host builds. For an unknown resource the code byte is right exactly when the host's own
   * padding byte, which nobody sets, was nonzero. For a known one it is right exactly when the task gets the announced
   * bytes, or refuses the leftover bytes that it gets instead.
   */
  lemma XscopeWriteReportIff(core: Core, host: seq<byte>, device: seq<byte>, resid: byte, cmd: byte,
                             payload: Option<seq<byte>>, n: nat)
    requires |host| == |device| == 4 * XSCOPE_UPLOAD_MAX_WORDS && n <= XSCOPE_UPLOAD_MAX_WORDS
    requires !IsRead(cmd) && Holds(payload, n)
    ensures XscopeFrame(host, resid, cmd, payload, n).Some?
    ensures var (after, size) := XscopeFrame(host, resid, cmd, payload, n).value;
            && size <= |after|
            && var u := Xscope.RunUpload(core, Xscope.Arrived(device, after[..size]));
               var accepted := Accepted(core, u.core, resid, cmd, Announced(payload, n));
               && ((u.buffer[3] == SUCCESS <==> accepted) <==>
                     if !Known(core, resid) then host[3] != SUCCESS
                     else || resid == SPECIAL_RESID || SameBytes(device, payload, n)
                          || Answer(core, WriteTo(Search(core.table, resid).value, resid, cmd,
                                                  Xscope.Leftover(device, n))).ret != SUCCESS)
               && (accepted ==> u.buffer[3] == SUCCESS)
  {
    var (after, size) := XscopeFrame(host, resid, cmd, payload, n).value;
    var buffer := Xscope.Arrived(device, after[..size]);
    assert buffer[0] == after[0] && buffer[1] == after[1] && buffer[2] == after[2] && buffer[3] == after[3] == host[3];
    XscopeCodeByteReportIff(core, buffer);
    if Known(core, resid) {
      XscopeKnownWrite(core, host, device, resid, cmd, payload, n);
    }
  }

  /** On a freshly started device a write to an unregistered resource, padded with zero, is answered with success. */
  lemma XscopeLostWrite(tasks: Tasks)
    ensures var u := Xscope.RunUpload(Started(tasks), [2, 0, 0, 0]);
            u.buffer[3] == SUCCESS && u.core.calls == []
  {
    StartedKnows(tasks);
  }

  function Accepting(): Tasks {
    (calls, request) => Reply(SUCCESS, [])
  }

  /** On a freshly started device a null payload hands the task a leftover byte, and the answer is success. */
  lemma XscopeLostPayload(host: seq<byte>, device: seq<byte>)
    requires |host| == |device| == 4 * XSCOPE_UPLOAD_MAX_WORDS && device[4] != 0
    ensures XscopeFrame(host, 1, 0, None, 1).Some?
    ensures var (after, size) := XscopeFrame(host, 1, 0, None, 1).value;
            && size <= |after|
            && var u := Xscope.RunUpload(Started(Accepting()), Xscope.Arrived(device, after[..size]));
               && u.buffer[3] == SUCCESS
               && u.core.calls == [Call(WriteTo(0, 1, 0, [device[4]]), Reply(SUCCESS, []))]
  {
    var core := Started(Accepting());
    StartedKnows(Accepting());
    XscopeKnownWrite(core, host, device, 1, 0, None, 1);
    assert Xscope.Leftover(device, 1) == [device[4]];
    var (after, size) := XscopeFrame(host, 1, 0, None, 1).value;
    Xscope.ResponseAnswersRequest(core, Xscope.Arrived(device, after[..size]));
  }

  // ----- The transports together -----

  /** On a freshly started device a refused write is recorded in the status register over I2C and USB, but not SPI. */
  lemma StatusDependsOnTransport(tasks: Tasks, a: TransportIndependence.Arrival)
    requires TransportIndependence.Proper(a, 2, 0, [])
    ensures var core := Started(tasks);
            && TransportIndependence.OverI2c(core, a, 2, 0, []).lastStatus == BAD_COMMAND
            && TransportIndependence.OverUsb(core, a, 2, 0, []).lastStatus == BAD_COMMAND
            && TransportIndependence.OverSpi(core, a).lastStatus == SUCCESS
  {
    StartedKnows(tasks);
    TransportIndependence.EachTransport(Started(tasks), a, 2, 0, []);
  }
}
