/** The XSCOPE path: the response is written over the request. */
module Xscope {
  import opened ControlTypes
  import opened ResourceTables
  import opened ControlCore
  import opened Frames

  datatype Upload = Upload(core: Core, buffer: seq<byte>, lengthOut: nat, ret: byte)

  /** A known resource's payload lies in the buffer. */
  predicate Fits(core: Core, buffer: seq<byte>) {
    && |buffer| >= XSCOPE_HEADER_BYTES
    && (Known(core, buffer[0]) ==> XSCOPE_HEADER_BYTES + buffer[2] <= |buffer|)
  }

  function RunUpload(core: Core, buffer: seq<byte>): (r: Upload)
    requires Fits(core, buffer)
    ensures |r.buffer| == |buffer|
  {
    var header, n := XSCOPE_HEADER_BYTES, buffer[2];
    match Search(core.table, buffer[0])
    case None => Upload(core, buffer, header, BAD_COMMAND)
    case Some(ifnum) =>
      if IsRead(buffer[1]) then
        var r := RunRead(core, ifnum, buffer[0], buffer[1], buffer[header..header + n]);
        var size := if r.ret == SUCCESS then header + n else header;
        Upload(r.core, Splice(buffer, header, r.data)[3 := r.ret], size, r.ret)
      else
        var w := RunWrite(core, ifnum, buffer[0], buffer[1], buffer[header..header + n]);
        Upload(w.core, buffer[3 := w.ret], header, w.ret)
  }

  method ProcessUpload(control: Control, buffer: array<byte>) returns (ret: byte, lengthOut: nat)
    requires control.Valid() && buffer != control.table.entries
    requires Fits(control.View(), buffer[..])
    modifies control, buffer
    ensures Upload(control.View(), buffer[..], lengthOut, ret) == RunUpload(old(control.View()), old(buffer[..]))
  {
    lengthOut := XSCOPE_HEADER_BYTES;
    var code, ifnum := control.table.SearchTable(buffer[0]);
    if code != 0 {
      return BAD_COMMAND, lengthOut;
    }
    if IsRead(buffer[1]) {
      ret := control.ReadCommand(ifnum, buffer[0], buffer[1], buffer, XSCOPE_HEADER_BYTES, buffer[2]);
      buffer[3] := ret;
      if ret == SUCCESS {
        lengthOut := lengthOut + buffer[2];
      }
    } else {
      ret := control.WriteCommand(ifnum, buffer[0], buffer[1], buffer, XSCOPE_HEADER_BYTES, buffer[2]);
      buffer[3] := ret;
    }
  }

  /** The response answers the request in place; it carries data exactly after a successful read. */
  lemma ResponseAnswersRequest(core: Core, buffer: seq<byte>)
    requires Fits(core, buffer) && Known(core, buffer[0])
    ensures var u := RunUpload(core, buffer);
            var n := buffer[2];
            && u.buffer[..3] == buffer[..3] && u.buffer[3] == u.ret
            && u.buffer[XSCOPE_HEADER_BYTES + n..] == buffer[XSCOPE_HEADER_BYTES + n..]
            && u.lengthOut == XSCOPE_HEADER_BYTES + (if IsRead(buffer[1]) && u.ret == SUCCESS then n else 0)
            && if IsRead(buffer[1]) then
                 var r := AtomicRead(core, buffer[0], buffer[1], n);
                 && u.core == r.core && u.ret == r.ret
                 && (u.ret == SUCCESS ==> u.buffer[XSCOPE_HEADER_BYTES..u.lengthOut] == r.data)
               else
                 var payload := buffer[XSCOPE_HEADER_BYTES..XSCOPE_HEADER_BYTES + n];
                 Written(u.core, u.ret) == AtomicWrite(core, buffer[0], buffer[1], payload)
  {
  }

  /** Corollary: the response's code byte is the result exactly for a known resource, or if it already said so. */
  lemma CodeByteIsResultIff(core: Core, buffer: seq<byte>)
    requires Fits(core, buffer)
    ensures RunUpload(core, buffer).buffer[3] == RunUpload(core, buffer).ret
            <==> Known(core, buffer[0]) || buffer[3] == BAD_COMMAND
    ensures !Known(core, buffer[0]) ==>
              RunUpload(core, buffer) == Upload(core, buffer, XSCOPE_HEADER_BYTES, BAD_COMMAND)
  {
  }

  /** The device's receive buffer once a frame has arrived in it. */
  function Arrived(received: seq<byte>, frame: seq<byte>): (r: seq<byte>)
    requires |frame| <= |received|
    ensures |r| == |received|
  {
    Overlay(received, frame)
  }

  /** A built write frame of at most 64 payload bytes is one atomic write of the host's exact payload. */
  lemma BuiltFrameIsAtomicWrite(core: Core, host: seq<byte>, device: seq<byte>, resid: byte, cmd: byte,
                                payload: seq<byte>)
    requires |host| == |device| == 4 * XSCOPE_UPLOAD_MAX_WORDS && |payload| <= XSCOPE_UPLOAD_MAX_WORDS
    requires Known(core, resid) && !IsRead(cmd)
    ensures XscopeFrame(host, resid, cmd, Some(payload), |payload|).Some?
    ensures var (after, size) := XscopeFrame(host, resid, cmd, Some(payload), |payload|).value;
            && size <= |after|
            && var u := RunUpload(core, Arrived(device, after[..size]));
               Written(u.core, u.ret) == AtomicWrite(core, resid, cmd, payload)
  {
    var (after, size) := XscopeFrame(host, resid, cmd, Some(payload), |payload|).value;
    var buffer := Arrived(device, after[..size]);
    assert payload[..|payload|] == payload;
    assert buffer[0] == after[0] && buffer[1] == after[1] && buffer[2] == after[2];
    assert buffer[XSCOPE_HEADER_BYTES..size] == payload;
    ResponseAnswersRequest(core, buffer);
  }

  /** The bytes the receive buffer already held where a payload of `n` bytes would have arrived. */
  function Leftover(received: seq<byte>, n: nat): (r: seq<byte>)
    requires XSCOPE_HEADER_BYTES + n <= |received|
    ensures |r| == n
  {
    received[XSCOPE_HEADER_BYTES..XSCOPE_HEADER_BYTES + n]
  }

  /** With a null payload only the header is sent, and the task gets the declared number of leftover bytes. */
  lemma NullPayloadWritesLeftover(core: Core, host: seq<byte>, device: seq<byte>, resid: byte, cmd: byte, n: nat)
    requires |host| == |device| == 4 * XSCOPE_UPLOAD_MAX_WORDS && n <= XSCOPE_UPLOAD_MAX_WORDS
    requires Known(core, resid) && !IsRead(cmd)
    ensures XscopeFrame(host, resid, cmd, None, n).Some?
    ensures var (after, size) := XscopeFrame(host, resid, cmd, None, n).value;
            && size <= |after|
            && var u := RunUpload(core, Arrived(device, after[..size]));
               Written(u.core, u.ret) == AtomicWrite(core, resid, cmd, Leftover(device, n))
  {
    var (after, size) := XscopeFrame(host, resid, cmd, None, n).value;
    var buffer := Arrived(device, after[..size]);
    assert buffer[0] == after[0] && buffer[1] == after[1] && buffer[2] == after[2];
    OverlayKeepsRest(device, after[..size], XSCOPE_HEADER_BYTES, XSCOPE_HEADER_BYTES + n);
    ResponseAnswersRequest(core, buffer);
  }
}
