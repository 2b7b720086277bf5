/** The same write, and the same read, on four transports. */
module TransportIndependence {
  import opened ControlTypes
  import opened ControlCore
  import opened Frames
  import I2cMachine
  import I2cHost
  import SpiMachine
  import SpiTransactions
  import SpiHost
  import Usb
  import Xscope

  /** A host's write as it arrives over each transport, with everything the transports leave open. */
  datatype Arrival = Arrival(
    i2c: I2cMachine.I2c, stopOnNack: bool,
    spiEvents: seq<SpiTransactions.Event>,
    usbBuffer: seq<byte>, usbLater: seq<Usb.Transfer>, usbStatus: Usb.XudResult,
    xscopeHost: seq<byte>, xscopeDevice: seq<byte>)

  predicate Proper(a: Arrival, resid: byte, cmd: byte, payload: seq<byte>) {
    && SpiTransactions.SuppliedBytes(a.spiEvents) == SpiFrame(resid, cmd, Some(payload), |payload|)
    && |a.usbBuffer| == Usb.EP0_MAX_REQUEST_SIZE && Usb.ValidTransfers(a.usbLater)
    && |a.xscopeHost| == |a.xscopeDevice| == 4 * XSCOPE_UPLOAD_MAX_WORDS
  }

  function OverI2c(core: Core, a: Arrival, resid: byte, cmd: byte, payload: seq<byte>): Core {
    var frame := I2cFrame(resid, cmd, Some(payload), |payload|);
    I2cHost.MasterWrite(I2cHost.Link(core, a.i2c), frame, true, a.stopOnNack).link.core
  }

  function OverSpi(core: Core, a: Arrival): Core {
    SpiTransactions.Transaction(core, SpiMachine.INITIAL, a.spiEvents).core
  }

  function OverUsb(core: Core, a: Arrival, resid: byte, cmd: byte, payload: seq<byte>): Core
    requires Proper(a, resid, cmd, payload)
  {
    Usb.VendorRequestSet(core, a.usbBuffer, Usb.Split(payload) + a.usbLater, Usb.VENDOR_REQUEST,
                         resid, cmd, |payload|, a.usbStatus).core
  }

  function OverXscope(core: Core, a: Arrival, resid: byte, cmd: byte, payload: seq<byte>): Core
    requires Proper(a, resid, cmd, payload) && |payload| <= XSCOPE_UPLOAD_MAX_WORDS && !IsRead(cmd)
  {
    var (after, size) := XscopeFrame(a.xscopeHost, resid, cmd, Some(payload), |payload|).value;
    var buffer := Xscope.Arrived(a.xscopeDevice, after[..size]);
    Xscope.RunUpload(core, buffer).core
  }

  // ----- Each transport on its own -----

  lemma ByI2c(core: Core, a: Arrival, resid: byte, cmd: byte, payload: seq<byte>)
    requires !IsRead(cmd) && |payload| <= DATA_MAX_BYTES
    ensures var w := AtomicWrite(core, resid, cmd, payload);
            OverI2c(core, a, resid, cmd, payload) == w.core.(lastStatus := w.ret)
  {
    assert payload[..|payload|] == payload;
    I2cHost.WriteFrameIsAtomic(I2cHost.Link(core, I2cMachine.OnWriteStart(a.i2c)), resid, cmd, payload);
  }

  lemma BySpi(core: Core, a: Arrival, resid: byte, cmd: byte, payload: seq<byte>)
    requires !IsRead(cmd) && |payload| <= DATA_MAX_BYTES
    requires SpiTransactions.SuppliedBytes(a.spiEvents) == SpiFrame(resid, cmd, Some(payload), |payload|)
    ensures OverSpi(core, a) == AtomicWrite(core, resid, cmd, payload).core
  {
    assert SpiFrame(resid, cmd, Some(payload), |payload|)[3..] == payload;
    SpiTransactions.WriteIsAllOrNothing(core, a.spiEvents);
  }

  lemma ByUsb(core: Core, a: Arrival, resid: byte, cmd: byte, payload: seq<byte>)
    requires Proper(a, resid, cmd, payload) && !IsRead(cmd) && |payload| <= Usb.EP0_MAX_REQUEST_SIZE
    ensures var w := AtomicWrite(core, resid, cmd, payload);
            OverUsb(core, a, resid, cmd, payload) == w.core.(lastStatus := w.ret)
  {
    var pending := Usb.Split(payload) + a.usbLater;
    Usb.SplitPayloadIsDelivered(core, a.usbBuffer, payload, a.usbLater, pending, resid, cmd, a.usbStatus);
  }

  lemma ByXscope(core: Core, a: Arrival, resid: byte, cmd: byte, payload: seq<byte>)
    requires Proper(a, resid, cmd, payload) && !IsRead(cmd) && |payload| <= XSCOPE_UPLOAD_MAX_WORDS
    ensures OverXscope(core, a, resid, cmd, payload) == AtomicWrite(core, resid, cmd, payload).core
  {
    if Known(core, resid) {
      Xscope.BuiltFrameIsAtomicWrite(core, a.xscopeHost, a.xscopeDevice, resid, cmd, payload);
    }
  }

  /**
   * Unknown resources: I2C and USB record the refusal in the status register, SPI and XSCOPE leave it alone. The
   * XSCOPE builder takes no more than 64 bytes.
   */
  lemma EachTransport(core: Core, a: Arrival, resid: byte, cmd: byte, payload: seq<byte>)
    requires Proper(a, resid, cmd, payload) && !IsRead(cmd) && |payload| <= DATA_MAX_BYTES
    ensures var w := AtomicWrite(core, resid, cmd, payload);
            && OverI2c(core, a, resid, cmd, payload) == w.core.(lastStatus := w.ret)
            && OverUsb(core, a, resid, cmd, payload) == w.core.(lastStatus := w.ret)
            && OverSpi(core, a) == w.core
            && (|payload| <= XSCOPE_UPLOAD_MAX_WORDS ==> OverXscope(core, a, resid, cmd, payload) == w.core)
  {
    ByI2c(core, a, resid, cmd, payload);
    BySpi(core, a, resid, cmd, payload);
    ByUsb(core, a, resid, cmd, payload);
    if |payload| <= XSCOPE_UPLOAD_MAX_WORDS {
      ByXscope(core, a, resid, cmd, payload);
    }
  }

  // ----- The four together -----

  /**
   * Main result, for every resource ID and write command: the transports that can carry the payload, three up to 253
   * bytes and XSCOPE up to 64, make the same task calls, namely those of the atomic write.
   */
  lemma TransportsMakeTheSameCalls(core: Core, a: Arrival, resid: byte, cmd: byte, payload: seq<byte>)
    requires Proper(a, resid, cmd, payload) && !IsRead(cmd) && |payload| <= DATA_MAX_BYTES
    ensures var calls := AtomicWrite(core, resid, cmd, payload).core.calls;
            && OverI2c(core, a, resid, cmd, payload).calls == calls
            && OverSpi(core, a).calls == calls
            && OverUsb(core, a, resid, cmd, payload).calls == calls
            && (|payload| <= XSCOPE_UPLOAD_MAX_WORDS ==> OverXscope(core, a, resid, cmd, payload).calls == calls)
  {
    EachTransport(core, a, resid, cmd, payload);
  }

  /** They leave the same status register too, exactly for known resources or when it already says refused. */
  lemma TransportsAgreeIff(core: Core, a: Arrival, resid: byte, cmd: byte, payload: seq<byte>)
    requires Proper(a, resid, cmd, payload) && !IsRead(cmd) && |payload| <= DATA_MAX_BYTES
    ensures Known(core, resid) || core.lastStatus == BAD_COMMAND <==>
            && OverI2c(core, a, resid, cmd, payload) == OverSpi(core, a)
            && OverUsb(core, a, resid, cmd, payload) == OverSpi(core, a)
    ensures |payload| <= XSCOPE_UPLOAD_MAX_WORDS ==> OverXscope(core, a, resid, cmd, payload) == OverSpi(core, a)
    ensures Known(core, resid) ==> OverSpi(core, a) == AtomicWrite(core, resid, cmd, payload).core
  {
    EachTransport(core, a, resid, cmd, payload);
  }

  // ----- Reads -----

  /** A host's read over each transport, with everything the transports leave open. */
  datatype Reading = Reading(
    i2c: I2cMachine.I2c, stopOnNack: bool,
    spiBus: SpiHost.Bus, spiCount: nat,
    usbBuffer: seq<byte>,
    xscopeHost: seq<byte>, xscopeDevice: seq<byte>)

  predicate Asks(cmd: byte, n: nat) {
    IsRead(cmd) && 1 <= n <= DATA_MAX_BYTES
  }

  ghost predicate ProperReading(a: Reading) {
    && SpiHost.GoodBus(a.spiBus)
    && |a.usbBuffer| == Usb.EP0_MAX_REQUEST_SIZE
    && |a.xscopeHost| == |a.xscopeDevice| == 4 * XSCOPE_UPLOAD_MAX_WORDS
  }

  function ReadOverI2c(core: Core, a: Reading, resid: byte, cmd: byte, n: nat): ReadBack {
    var r := I2cHost.HostRead(I2cHost.Link(core, a.i2c), resid, cmd, n, a.stopOnNack);
    ReadBack(r.link.core, r.ret, r.data)
  }

  function ReadOverSpi(core: Core, a: Reading, resid: byte, cmd: byte, n: nat): ReadBack {
    var r := SpiHost.HostRead(a.spiBus, SpiHost.Link(core, SpiMachine.INITIAL, a.spiCount), resid, cmd, Zeros(n), n);
    ReadBack(r.link.core, r.ret, r.data)
  }

  function ReadOverUsb(core: Core, a: Reading, resid: byte, cmd: byte, n: nat): ReadBack
    requires n <= |a.usbBuffer|
  {
    Usb.UsbGet(core, resid, cmd, a.usbBuffer[..n])
  }

  function ReadOverXscope(core: Core, a: Reading, resid: byte, cmd: byte, n: nat): ReadBack
    requires |a.xscopeHost| == |a.xscopeDevice| == 4 * XSCOPE_UPLOAD_MAX_WORDS
    requires Asks(cmd, n) && n <= XSCOPE_UPLOAD_MAX_WORDS
  {
    var (after, size) := XscopeFrame(a.xscopeHost, resid, cmd, None, n).value;
    var u := Xscope.RunUpload(core, Xscope.Arrived(a.xscopeDevice, after[..size]));
    ReadBack(u.core, u.ret, u.buffer[XSCOPE_HEADER_BYTES..u.lengthOut])
  }

  /** Equal codes, equal cores and, after success, equal bytes. */
  ghost predicate SameReading(r: ReadBack, atomic: ReadBack) {
    r.core == atomic.core && r.ret == atomic.ret && (r.ret == SUCCESS ==> r.data == atomic.data)
  }

  lemma UsbReads(core: Core, a: Reading, resid: byte, cmd: byte, n: nat)
    requires ProperReading(a) && Asks(cmd, n)
    ensures SameReading(ReadOverUsb(core, a, resid, cmd, n), AtomicRead(core, resid, cmd, n))
  {
  }

  lemma XscopeReads(core: Core, a: Reading, resid: byte, cmd: byte, n: nat)
    requires ProperReading(a) && Asks(cmd, n) && n <= XSCOPE_UPLOAD_MAX_WORDS
    ensures SameReading(ReadOverXscope(core, a, resid, cmd, n), AtomicRead(core, resid, cmd, n))
  {
    var (after, size) := XscopeFrame(a.xscopeHost, resid, cmd, None, n).value;
    var buffer := Xscope.Arrived(a.xscopeDevice, after[..size]);
    assert buffer[0] == after[0] && buffer[1] == after[1] && buffer[2] == after[2];
    if Known(core, resid) {
      Xscope.ResponseAnswersRequest(core, buffer);
    }
  }

  /**
   * Main result, for every resource ID, read command and nonzero length, three transports up to 253 bytes and XSCOPE up
   * to 64: the same task calls. I2C, USB and XSCOPE report success exactly when the read succeeds, and SPI always does.
   * After a success they return the same bytes, but for the status register read over I2C.
   */
  lemma ReadsMakeTheSameCalls(core: Core, a: Reading, resid: byte, cmd: byte, n: nat)
    requires Ready(core) && ProperReading(a) && Asks(cmd, n)
    ensures var atomic := AtomicRead(core, resid, cmd, n);
            var i2c, spi := ReadOverI2c(core, a, resid, cmd, n), ReadOverSpi(core, a, resid, cmd, n);
            var usb := ReadOverUsb(core, a, resid, cmd, n);
            && i2c.core.calls == spi.core.calls == usb.core.calls == atomic.core.calls
            && (i2c.ret == SUCCESS <==> atomic.ret == SUCCESS) && usb.ret == atomic.ret && spi.ret == SUCCESS
            && (atomic.ret == SUCCESS ==> spi.data == usb.data == atomic.data)
            && (atomic.ret == SUCCESS && !I2cHost.StatusRead(resid, cmd, n) ==> i2c.data == atomic.data)
    ensures n <= XSCOPE_UPLOAD_MAX_WORDS ==>
              SameReading(ReadOverXscope(core, a, resid, cmd, n), AtomicRead(core, resid, cmd, n))
  {
    I2cHost.HostReadIsAtomic(I2cHost.Link(core, a.i2c), resid, cmd, n, a.stopOnNack);
    var link := SpiHost.Link(core, SpiMachine.INITIAL, a.spiCount);
    SpiHost.HostReadIsAtomic(a.spiBus, link, resid, cmd, Zeros(n), n);
    UsbReads(core, a, resid, cmd, n);
    if n <= XSCOPE_UPLOAD_MAX_WORDS {
      XscopeReads(core, a, resid, cmd, n);
    }
  }

  /** All return the same code and the same bytes exactly when the read succeeds and, if of the status, finds 0. */
  lemma ReadsAgreeIff(core: Core, a: Reading, resid: byte, cmd: byte, n: nat)
    requires Ready(core) && ProperReading(a) && Asks(cmd, n)
    ensures var i2c, spi := ReadOverI2c(core, a, resid, cmd, n), ReadOverSpi(core, a, resid, cmd, n);
            var usb := ReadOverUsb(core, a, resid, cmd, n);
            && i2c.ret == spi.ret == usb.ret && i2c.data == spi.data == usb.data
            && (n <= XSCOPE_UPLOAD_MAX_WORDS ==>
                  var xscope := ReadOverXscope(core, a, resid, cmd, n);
                  xscope.ret == usb.ret && xscope.data == usb.data)
            <==> AtomicRead(core, resid, cmd, n).ret == SUCCESS
                 && (I2cHost.StatusRead(resid, cmd, n) ==> core.lastStatus == SUCCESS)
  {
    ReadsMakeTheSameCalls(core, a, resid, cmd, n);
    if I2cHost.StatusRead(resid, cmd, n) {
      I2cHost.StatusReadSucceeds(I2cHost.Link(core, a.i2c), a.stopOnNack);
    }
  }
}
