/** The USB path: endpoint-0 reassembly and the one-shot set and get requests. */
module Usb {
  import opened ControlTypes
  import opened ResourceTables
  import opened ControlCore

  const MAX_PACKET_SIZE0 := 64
  const EP0_MAX_REQUEST_SIZE := 256
  const VENDOR_REQUEST := 0

  // ----- Requests -----

  function UsbSet(core: Core, windex: nat, wvalue: nat, data: seq<byte>): Written {
    var resid, cmd := windex % 256, wvalue % 256;
    match Search(core.table, resid)
    case None => Written(core.(lastStatus := BAD_COMMAND), BAD_COMMAND)
    case Some(ifnum) =>
      if IsRead(cmd) then Written(core.(lastStatus := BAD_COMMAND), BAD_COMMAND)
      else RunWrite(core, ifnum, resid, cmd, data)
  }

  function UsbGet(core: Core, windex: nat, wvalue: nat, buffer: seq<byte>): (r: ReadBack)
    ensures |r.data| == |buffer|
  {
    var resid, cmd := windex % 256, wvalue % 256;
    match Search(core.table, resid)
    case None => ReadBack(core, BAD_COMMAND, buffer)
    case Some(ifnum) =>
      if !IsRead(cmd) then ReadBack(core, BAD_COMMAND, buffer)
      else RunRead(core, ifnum, resid, cmd, buffer)
  }

  /**
   * A set request is the atomic write, and a get request the atomic read, exactly of known resources with the matching
   * code; any other is refused without a call. A refused set is recorded, a refused get leaves the buffer alone.
   */
  lemma RequestsAreAtomic(core: Core, windex: nat, wvalue: nat, buffer: seq<byte>)
    ensures var resid, cmd := windex % 256, wvalue % 256;
            var put, got := UsbSet(core, windex, wvalue, buffer), UsbGet(core, windex, wvalue, buffer);
            && (if Known(core, resid) && !IsRead(cmd) then
                  put == AtomicWrite(core, resid, cmd, buffer)
                else
                  put == Written(core.(lastStatus := BAD_COMMAND), BAD_COMMAND))
            && (if Known(core, resid) && IsRead(cmd) then
                  var atomic := AtomicRead(core, resid, cmd, |buffer|);
                  && got.core == atomic.core && got.ret == atomic.ret
                  && (got.ret == SUCCESS ==> got.data == atomic.data)
                else
                  got == ReadBack(core, BAD_COMMAND, buffer))
  {
  }

  method ProcessSetRequest(control: Control, windex: nat, wvalue: nat, wlength: nat, requestData: array<byte>)
    returns (ret: byte)
    requires control.Valid() && wlength <= requestData.Length
    modifies control
    ensures Written(control.View(), ret) == UsbSet(old(control.View()), windex, wvalue, requestData[..wlength])
  {
    ret := ERROR;
    var resid, cmd := windex % 256, wvalue % 256;
    var code, ifnum := control.table.SearchTable(resid);
    if code != 0 {
      ret := BAD_COMMAND;
    }
    if IsRead(cmd) {
      ret := BAD_COMMAND;
    }
    if ret != BAD_COMMAND {
      ret := control.WriteCommand(ifnum, resid, cmd, requestData, 0, wlength);
    }
    control.lastStatus := ret;
  }

  method ProcessGetRequest(control: Control, windex: nat, wvalue: nat, wlength: nat, requestData: array<byte>)
    returns (ret: byte)
    requires control.Valid() && wlength <= requestData.Length && requestData != control.table.entries
    modifies control, requestData
    ensures var r := UsbGet(old(control.View()), windex, wvalue, old(requestData[..wlength]));
            r.core == control.View() && r.ret == ret && requestData[..] == Overlay(old(requestData[..]), r.data)
  {
    var resid, cmd := windex % 256, wvalue % 256;
    var code, ifnum := control.table.SearchTable(resid);
    if code != 0 {
      return BAD_COMMAND;
    }
    if !IsRead(cmd) {
      return BAD_COMMAND;
    }
    ret := control.ReadCommand(ifnum, resid, cmd, requestData, 0, wlength);
  }

  // ----- Endpoint 0 -----

  datatype XudResult = Okay | BusReset | Err

  /** What one wait for the endpoint yields: a packet, or a failure of the bus. */
  datatype Transfer = Packet(bytes: seq<byte>) | Failure(result: XudResult)

  predicate ValidTransfer(t: Transfer) {
    match t
    case Packet(bytes) => |bytes| <= MAX_PACKET_SIZE0
    case Failure(result) => result != Okay
  }

  predicate ValidTransfers(ts: seq<Transfer>) {
    forall i :: 0 <= i < |ts| ==> ValidTransfer(ts[i])
  }

  datatype Reception = Reception(result: XudResult, bytes: seq<byte>, rest: seq<Transfer>)

  /** The reception loop entered with `got` bytes. A host that never sends again is taken to reset the bus. */
  function Receive(pending: seq<Transfer>, wlength: nat, got: nat): Reception {
    if got >= wlength then Reception(Okay, [], pending)
    else if pending == [] then Reception(BusReset, [], [])
    else match pending[0]
      case Failure(result) => Reception(result, [], pending[1..])
      case Packet(bytes) =>
        if |bytes| != MAX_PACKET_SIZE0 then Reception(Okay, bytes, pending[1..])
        else
          var r := Receive(pending[1..], wlength, got + MAX_PACKET_SIZE0);
          Reception(r.result, bytes + r.bytes, r.rest)
  }

  /** The XUD endpoint, as far as the reception loop sees it. */
  class Endpoint {
    var pending: seq<Transfer>

    constructor (pending: seq<Transfer>)
      ensures this.pending == pending
    {
      this.pending := pending;
    }

    method GetBuffer(buffer: array<byte>, offset: nat) returns (result: XudResult, length: nat)
      requires ValidTransfers(pending) && offset + MAX_PACKET_SIZE0 <= buffer.Length
      modifies this, buffer
      ensures if old(pending) == [] then
                result == BusReset && pending == [] && buffer[..] == old(buffer[..])
              else
                pending == old(pending)[1..] &&
                match old(pending)[0]
                case Failure(r) => result == r && buffer[..] == old(buffer[..])
                case Packet(bytes) =>
                  && result == Okay && length == |bytes|
                  && buffer[..] == Splice(old(buffer[..]), offset, bytes)
    {
      if pending == [] {
        return BusReset, 0;
      }
      var first := pending[0];
      assert ValidTransfer(first);
      pending := pending[1..];
      match first {
        case Failure(r) =>
          return r, 0;
        case Packet(bytes) =>
          result, length := Okay, |bytes|;
          forall i | 0 <= i < length {
            buffer[offset + i] := bytes[i];
          }
          assert buffer[..] == Splice(old(buffer[..]), offset, bytes);
      }
    }
  }

  /** The whole reception, as seen when `received` has arrived and the loop goes on. */
  ghost function Resume(pending: seq<Transfer>, wlength: nat, received: seq<byte>): Reception {
    var r := Receive(pending, wlength, |received|);
    Reception(r.result, received + r.bytes, r.rest)
  }

  lemma ResumeStep(pending: seq<Transfer>, wlength: nat, received: seq<byte>)
    requires |received| < wlength && ValidTransfers(pending)
    ensures pending == [] ==> Resume(pending, wlength, received) == Reception(BusReset, received, [])
    ensures pending != [] ==> ValidTransfer(pending[0]) && ValidTransfers(pending[1..])
    ensures pending != [] && pending[0].Failure? ==>
              Resume(pending, wlength, received) == Reception(pending[0].result, received, pending[1..])
    ensures pending != [] && pending[0].Packet? ==>
              var more := received + pending[0].bytes;
              Resume(pending, wlength, received)
              == if |pending[0].bytes| == MAX_PACKET_SIZE0 then Resume(pending[1..], wlength, more)
                 else Reception(Okay, more, pending[1..])
  {
  }

  lemma SpliceAfterPrefix(buffer: seq<byte>, received: seq<byte>, bytes: seq<byte>)
    requires |received| + |bytes| <= |buffer|
    ensures Splice(Overlay(buffer, received), |received|, bytes) == Overlay(buffer, received + bytes)
  {
  }

  /** One turn of the reception loop, with `received` stored so far over what the buffer held at first. */
  method ReceiveOne(ep: Endpoint, wlength: nat, buffer: array<byte>, length: nat,
                    ghost before: seq<byte>, ghost received: seq<byte>)
    returns (result: XudResult, packetLength: nat, ghost more: seq<byte>)
    requires ValidTransfers(ep.pending)
    requires wlength <= EP0_MAX_REQUEST_SIZE == buffer.Length == |before|
    requires length == |received| < wlength && length % MAX_PACKET_SIZE0 == 0
    requires buffer[..] == Overlay(before, received)
    modifies ep, buffer
    ensures ValidTransfers(ep.pending)
    ensures |more| <= buffer.Length && buffer[..] == Overlay(before, more)
    ensures result == Okay ==> |more| == length + packetLength
    ensures Resume(old(ep.pending), wlength, received)
            == if result == Okay && packetLength == MAX_PACKET_SIZE0 then Resume(ep.pending, wlength, more)
               else Reception(result, more, ep.pending)
  {
    ghost var pending := ep.pending;
    ResumeStep(pending, wlength, received);
    more := received;
    result, packetLength := ep.GetBuffer(buffer, length);
    if result == Okay {
      SpliceAfterPrefix(before, received, pending[0].bytes);
      more := received + pending[0].bytes;
    }
  }

  /** The reception loop. Termination, and staying inside the 256-byte buffer, are part of what is verified. */
  method Ep0Receive(ep: Endpoint, wlength: nat, buffer: array<byte>) returns (result: XudResult)
    requires ValidTransfers(ep.pending)
    requires wlength <= EP0_MAX_REQUEST_SIZE == buffer.Length
    modifies ep, buffer
    ensures var r := Receive(old(ep.pending), wlength, 0);
            && result == r.result && ep.pending == r.rest
            && |r.bytes| <= buffer.Length && buffer[..] == Overlay(old(buffer[..]), r.bytes)
    ensures ValidTransfers(ep.pending)
  {
    result := Okay;
    var length, packetLength := 0, MAX_PACKET_SIZE0;
    ghost var before, received: seq<byte> := buffer[..], [];
    while result == Okay && packetLength == MAX_PACKET_SIZE0 && length < wlength
      invariant ValidTransfers(ep.pending)
      invariant |received| <= buffer.Length && buffer[..] == Overlay(before, received)
      invariant result == Okay && packetLength == MAX_PACKET_SIZE0 ==>
                  && length == |received| && length % MAX_PACKET_SIZE0 == 0
                  && Receive(old(ep.pending), wlength, 0) == Resume(ep.pending, wlength, received)
      invariant result != Okay || packetLength != MAX_PACKET_SIZE0 ==>
                  Receive(old(ep.pending), wlength, 0) == Reception(result, received, ep.pending)
      decreases if result == Okay && packetLength == MAX_PACKET_SIZE0 then wlength + MAX_PACKET_SIZE0 - length else 0
    {
      result, packetLength, received := ReceiveOne(ep, wlength, buffer, length, before, received);
      length := length + packetLength;
    }
  }

  // ----- Vendor requests -----

  datatype VendorSet = VendorSet(core: Core, buffer: seq<byte>, rest: seq<Transfer>, result: XudResult)

  lemma {:induction false} ReceiveStaysInBuffer(pending: seq<Transfer>, wlength: nat, got: nat)
    requires ValidTransfers(pending) && wlength <= EP0_MAX_REQUEST_SIZE
    requires got <= EP0_MAX_REQUEST_SIZE && got % MAX_PACKET_SIZE0 == 0
    ensures got + |Receive(pending, wlength, got).bytes| <= EP0_MAX_REQUEST_SIZE
    decreases pending
  {
    if got >= wlength || pending == [] {
    } else {
      assert ValidTransfer(pending[0]);
      if pending[0].Packet? && |pending[0].bytes| == MAX_PACKET_SIZE0 {
        ReceiveStaysInBuffer(pending[1..], wlength, got + MAX_PACKET_SIZE0);
      }
    }
  }

  /** `status` is how the status stage ends if the handler starts it. */
  function VendorRequestSet(core: Core, buffer: seq<byte>, pending: seq<Transfer>, request: byte,
                            windex: nat, wvalue: nat, wlength: nat, status: XudResult): VendorSet
    requires |buffer| == EP0_MAX_REQUEST_SIZE && ValidTransfers(pending)
  {
    if request != VENDOR_REQUEST || wlength > EP0_MAX_REQUEST_SIZE then VendorSet(core, buffer, pending, Err)
    else
      ReceiveStaysInBuffer(pending, wlength, 0);
      var r := Receive(pending, wlength, 0);
      var filled := Overlay(buffer, r.bytes);
      if r.result != Okay then VendorSet(core, filled, r.rest, r.result)
      else
        var w := UsbSet(core, windex, wvalue, filled[..wlength]);
        VendorSet(w.core, filled, r.rest, if w.ret == SUCCESS then status else Okay)
  }

  /** A set request that is not for the handler, too long or not received runs no command, and is not reported okay. */
  lemma AbortedSetIsInert(core: Core, buffer: seq<byte>, pending: seq<Transfer>, request: byte,
                          windex: nat, wvalue: nat, wlength: nat, status: XudResult)
    requires |buffer| == EP0_MAX_REQUEST_SIZE && ValidTransfers(pending)
    requires || request != VENDOR_REQUEST || wlength > EP0_MAX_REQUEST_SIZE
             || Receive(pending, wlength, 0).result != Okay
    ensures var v := VendorRequestSet(core, buffer, pending, request, windex, wvalue, wlength, status);
            && v.core == core && v.result != Okay
            && (request != VENDOR_REQUEST || wlength > EP0_MAX_REQUEST_SIZE ==>
                  v.buffer == buffer && v.rest == pending && v.result == Err)
            && (request == VENDOR_REQUEST && wlength <= EP0_MAX_REQUEST_SIZE ==>
                  v.result == Receive(pending, wlength, 0).result)
  {
  }

  method H2DVendorRequest(control: Control, ep: Endpoint, requestData: array<byte>, request: byte,
                          windex: nat, wvalue: nat, wlength: nat, status: XudResult)
    returns (result: XudResult)
    requires control.Valid() && requestData != control.table.entries
    requires ValidTransfers(ep.pending) && requestData.Length == EP0_MAX_REQUEST_SIZE
    modifies control, ep, requestData
    ensures VendorSet(control.View(), requestData[..], ep.pending, result)
            == VendorRequestSet(old(control.View()), old(requestData[..]), old(ep.pending), request,
                                windex, wvalue, wlength, status)
  {
    if request == VENDOR_REQUEST && wlength <= EP0_MAX_REQUEST_SIZE {
      result := Ep0Receive(ep, wlength, requestData);
    } else {
      result := Err;
      return;
    }
    if result == Okay {
      var ret := ProcessSetRequest(control, windex, wvalue, wlength, requestData);
      if ret == SUCCESS {
        result := status;
      }
    }
  }

  /** `transfer` is how sending the answer ends if the handler starts it. */
  method D2HVendorRequest(control: Control, requestData: array<byte>, request: byte,
                          windex: nat, wvalue: nat, wlength: nat, transfer: XudResult)
    returns (result: XudResult, answer: Option<seq<byte>>)
    requires control.Valid() && requestData != control.table.entries
    requires requestData.Length == EP0_MAX_REQUEST_SIZE
    modifies control, requestData
    ensures if request == VENDOR_REQUEST && wlength <= EP0_MAX_REQUEST_SIZE then
              var r := UsbGet(old(control.View()), windex, wvalue, old(requestData[..wlength]));
              && control.View() == r.core && requestData[..] == Overlay(old(requestData[..]), r.data)
              && (if r.ret == SUCCESS then result == transfer && answer == Some(r.data)
                 else result == Err && answer == None)
            else
              control.View() == old(control.View()) && requestData[..] == old(requestData[..])
              && result == Err && answer == None
  {
    result, answer := Err, None;
    if request == VENDOR_REQUEST && wlength <= EP0_MAX_REQUEST_SIZE {
      var ret := ProcessGetRequest(control, windex, wvalue, wlength, requestData);
      if ret == SUCCESS {
        result, answer := transfer, Some(requestData[..wlength]);
      }
    }
  }

  // ----- What the reception loop delivers -----

  function Concat(ts: seq<Transfer>): seq<byte> {
    if ts == [] then [] else (if ts[0].Packet? then ts[0].bytes else []) + Concat(ts[1..])
  }

  /** The loop takes whole packets from the front, in order, and passes the length by less than a packet. */
  lemma {:induction false} ReceiveConcatenates(pending: seq<Transfer>, wlength: nat, got: nat)
    requires ValidTransfers(pending)
    ensures var r := Receive(pending, wlength, got);
            && |r.rest| <= |pending| && r.rest == pending[|pending| - |r.rest|..]
            && r.bytes == Concat(pending[..|pending| - |r.rest|])
            && (got < wlength ==> got + |r.bytes| < wlength + MAX_PACKET_SIZE0)
    decreases pending
  {
    if got < wlength && pending != [] {
      assert ValidTransfer(pending[0]);
      assert pending[..1][1..] == [];
      if pending[0].Packet? && |pending[0].bytes| == MAX_PACKET_SIZE0 {
        ReceiveConcatenates(pending[1..], wlength, got + MAX_PACKET_SIZE0);
        var r := Receive(pending[1..], wlength, got + MAX_PACKET_SIZE0);
        var taken := |pending| - |r.rest|;
        assert pending[..taken][1..] == pending[1..][..taken - 1];
        assert pending[1..][taken - 1..] == pending[taken..];
      }
    } else {
      assert pending[..0] == [];
    }
  }

  function LeadingFull(pending: seq<Transfer>): (n: nat)
    ensures n <= |pending|
  {
    if pending != [] && pending[0].Packet? && |pending[0].bytes| == MAX_PACKET_SIZE0 then
      1 + LeadingFull(pending[1..])
    else
      0
  }

  /** The leading full packets reach the announced length, or the packet after them completes it. */
  predicate Covers(pending: seq<Transfer>, wlength: nat) {
    var full := LeadingFull(pending);
    || MAX_PACKET_SIZE0 * full >= wlength
    || (full < |pending| && pending[full].Packet? && MAX_PACKET_SIZE0 * full + |pending[full].bytes| >= wlength)
  }

  lemma {:induction false} ReceivesWholeIff(pending: seq<Transfer>, wlength: nat, got: nat)
    requires ValidTransfers(pending) && got <= wlength
    ensures var r := Receive(pending, wlength, got);
            r.result == Okay && got + |r.bytes| >= wlength <==> Covers(pending, wlength - got)
    decreases pending
  {
    if got == wlength || pending == [] {
    } else {
      assert ValidTransfer(pending[0]);
      if pending[0].Packet? && |pending[0].bytes| == MAX_PACKET_SIZE0 && got + MAX_PACKET_SIZE0 < wlength {
        ReceivesWholeIff(pending[1..], wlength, got + MAX_PACKET_SIZE0);
      }
    }
  }

  /** How reception ends: by the packet after the full ones, by its failure, or by the bus when nothing comes. */
  lemma {:induction false} ReceptionResult(pending: seq<Transfer>, wlength: nat, got: nat)
    requires got <= wlength
    ensures var full := LeadingFull(pending);
            Receive(pending, wlength, got).result
            == if got + MAX_PACKET_SIZE0 * full >= wlength then Okay
               else if full == |pending| then BusReset
               else if pending[full].Packet? then Okay
               else pending[full].result
    decreases pending
  {
    if got == wlength || pending == [] {
    } else if pending[0].Packet? && |pending[0].bytes| == MAX_PACKET_SIZE0 && got + MAX_PACKET_SIZE0 < wlength {
      ReceptionResult(pending[1..], wlength, got + MAX_PACKET_SIZE0);
    }
  }

  /** A host splits a data stage into full packets and a shorter last one; no empty packet follows a full stage. */
  function Split(payload: seq<byte>): (ts: seq<Transfer>)
    ensures ValidTransfers(ts)
    decreases |payload|
  {
    if payload == [] then []
    else if |payload| <= MAX_PACKET_SIZE0 then [Packet(payload)]
    else [Packet(payload[..MAX_PACKET_SIZE0])] + Split(payload[MAX_PACKET_SIZE0..])
  }

  /** Round trip, for payloads of any length: reassembly undoes splitting and leaves later traffic alone. */
  lemma {:induction false} ReassemblyUndoesSplitting(payload: seq<byte>, later: seq<Transfer>, got: nat)
    ensures Receive(Split(payload) + later, got + |payload|, got) == Reception(Okay, payload, later)
    decreases |payload|
  {
    var ts := Split(payload) + later;
    if payload == [] {
      assert ts == later;
    } else if |payload| <= MAX_PACKET_SIZE0 {
      assert ts[0] == Packet(payload) && ts[1..] == later;
      assert |payload| == MAX_PACKET_SIZE0 ==> payload + [] == payload;
    } else {
      var rest := payload[MAX_PACKET_SIZE0..];
      assert ts[1..] == Split(rest) + later;
      ReassemblyUndoesSplitting(rest, later, got + MAX_PACKET_SIZE0);
      assert payload[..MAX_PACKET_SIZE0] + rest == payload;
    }
  }

  lemma SplitIsReceived(payload: seq<byte>, later: seq<Transfer>, pending: seq<Transfer>)
    requires ValidTransfers(later) && pending == Split(payload) + later
    ensures ValidTransfers(pending) && Receive(pending, |payload|, 0) == Reception(Okay, payload, later)
  {
    ReassemblyUndoesSplitting(payload, later, 0);
  }

  lemma ReceivedPayloadIsSet(core: Core, buffer: seq<byte>, pending: seq<Transfer>, payload: seq<byte>,
                             later: seq<Transfer>, windex: nat, wvalue: nat, status: XudResult)
    requires |buffer| == EP0_MAX_REQUEST_SIZE && |payload| <= EP0_MAX_REQUEST_SIZE && ValidTransfers(pending)
    requires Receive(pending, |payload|, 0) == Reception(Okay, payload, later)
    ensures var v := VendorRequestSet(core, buffer, pending, VENDOR_REQUEST, windex, wvalue, |payload|, status);
            var w := UsbSet(core, windex, wvalue, payload);
            && v.core == w.core && v.rest == later
            && v.result == if w.ret == SUCCESS then status else Okay
  {
  }

  /** A split payload of up to 256 bytes reaches the handler whole, whatever the buffer held before. */
  lemma SplitPayloadIsDelivered(core: Core, buffer: seq<byte>, payload: seq<byte>, later: seq<Transfer>,
                                pending: seq<Transfer>, windex: nat, wvalue: nat, status: XudResult)
    requires |buffer| == EP0_MAX_REQUEST_SIZE && |payload| <= EP0_MAX_REQUEST_SIZE && ValidTransfers(later)
    requires pending == Split(payload) + later
    ensures ValidTransfers(pending)
    ensures var v := VendorRequestSet(core, buffer, pending, VENDOR_REQUEST, windex, wvalue, |payload|, status);
            var w := UsbSet(core, windex, wvalue, payload);
            && v.core == w.core && v.rest == later
            && v.result == if w.ret == SUCCESS then status else Okay
  {
    SplitIsReceived(payload, later, pending);
    ReceivedPayloadIsSet(core, buffer, pending, payload, later, windex, wvalue, status);
  }

  /** The handler sees only received bytes exactly when the packets covered the announced length. */
  lemma HandlerSeesOnlyReceivedBytesIff(pending: seq<Transfer>, wlength: nat)
    requires ValidTransfers(pending) && wlength <= EP0_MAX_REQUEST_SIZE
    requires Receive(pending, wlength, 0).result == Okay
    ensures |Receive(pending, wlength, 0).bytes| <= EP0_MAX_REQUEST_SIZE
    ensures (forall b0, b1 :: |b0| == |b1| == EP0_MAX_REQUEST_SIZE ==>
               Overlay(b0, Receive(pending, wlength, 0).bytes)[..wlength]
               == Overlay(b1, Receive(pending, wlength, 0).bytes)[..wlength])
            <==> Covers(pending, wlength)
    ensures Covers(pending, wlength) <==> |Receive(pending, wlength, 0).bytes| >= wlength
  {
    ReceiveStaysInBuffer(pending, wlength, 0);
    ReceivesWholeIff(pending, wlength, 0);
    var bytes := Receive(pending, wlength, 0).bytes;
    if |bytes| < wlength {
      var b0, b1 := Zeros(EP0_MAX_REQUEST_SIZE), seq(EP0_MAX_REQUEST_SIZE, i => 1);
      var k := |bytes|;
      assert Overlay(b0, bytes)[..wlength][k] == 0 && Overlay(b1, bytes)[..wlength][k] == 1;
    } else {
      forall b0: seq<byte>, b1: seq<byte> | |b0| == |b1| == EP0_MAX_REQUEST_SIZE
        ensures Overlay(b0, bytes)[..wlength] == Overlay(b1, bytes)[..wlength]
      {
        assert Overlay(b0, bytes)[..wlength] == bytes[..wlength];
        assert Overlay(b1, bytes)[..wlength] == bytes[..wlength];
      }
    }
  }
}
