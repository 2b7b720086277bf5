/** The host's frame builders. A null payload is None. */
module Frames {
  import opened ControlTypes

  const TRANSACTION_MAX_BYTES := 256
  const XSCOPE_UPLOAD_MAX_WORDS := 64
  const XSCOPE_HEADER_BYTES := 4

  predicate Holds(payload: Option<seq<byte>>, length: nat) {
    payload.Some? ==> length <= |payload.value|
  }

  function I2cFrame(resid: byte, cmd: byte, payload: Option<seq<byte>>, length: nat): seq<byte>
    requires Holds(payload, length)
  {
    if length > DATA_MAX_BYTES then []
    else if IsRead(cmd) || payload.None? then [resid, cmd, length]
    else [resid, cmd, length] + payload.value[..length]
  }

  function SpiFrame(resid: byte, cmd: byte, payload: Option<seq<byte>>, length: nat): seq<byte>
    requires Holds(payload, length)
  {
    if length > TRANSACTION_MAX_BYTES then []
    else if IsRead(cmd) || payload.None? then [resid, cmd, length % 256, 0, 0, 0, 0, 0]
    else [resid, cmd, length % 256] + payload.value[..length]
  }

  /** None when the builder refuses; otherwise the buffer after the call and the frame's size. */
  function XscopeFrame(buffer: seq<byte>, resid: byte, cmd: byte, payload: Option<seq<byte>>, length: nat)
    : (r: Option<(seq<byte>, nat)>)
    requires |buffer| == 4 * XSCOPE_UPLOAD_MAX_WORDS && Holds(payload, length)
  {
    if length > XSCOPE_UPLOAD_MAX_WORDS then None
    else
      var headed := buffer[0 := resid][1 := cmd][2 := length];
      if IsRead(cmd) || payload.None? then Some((headed, XSCOPE_HEADER_BYTES))
      else Some((headed[..XSCOPE_HEADER_BYTES] + payload.value[..length] + headed[XSCOPE_HEADER_BYTES + length..],
                 XSCOPE_HEADER_BYTES + length))
  }

  /** The SPI builder stays inside its 256-byte frame. */
  predicate SpiFits(cmd: byte, payload: Option<seq<byte>>, length: nat) {
    IsRead(cmd) || payload.None? || length <= DATA_MAX_BYTES || length > TRANSACTION_MAX_BYTES
  }

  /** The payload a caller announces; a null one stands for zeros. */
  function Announced(payload: Option<seq<byte>>, length: nat): seq<byte>
    requires Holds(payload, length)
  {
    if payload.Some? then payload.value[..length] else Zeros(length)
  }

  /** A read frame does not depend on the caller's buffer. */
  lemma ReadFramesIgnorePayload(buffer: seq<byte>, resid: byte, cmd: byte, payload: Option<seq<byte>>, length: nat)
    requires IsRead(cmd) && Holds(payload, length) && |buffer| == 4 * XSCOPE_UPLOAD_MAX_WORDS
    ensures I2cFrame(resid, cmd, payload, length) == I2cFrame(resid, cmd, None, length)
    ensures SpiFrame(resid, cmd, payload, length) == SpiFrame(resid, cmd, None, length)
    ensures XscopeFrame(buffer, resid, cmd, payload, length) == XscopeFrame(buffer, resid, cmd, None, length)
  {
  }

  ghost function Bytes(payload: array?<byte>): Option<seq<byte>>
    reads payload
  {
    if payload == null then None else Some(payload[..])
  }

  method CopyBytes(target: array<byte>, source: array<byte>, length: nat)
    requires target != source && length <= target.Length && length <= source.Length
    modifies target
    ensures target[..] == Overlay(old(target[..]), source[..length])
  {
    forall i | 0 <= i < length {
      target[i] := source[i];
    }
    assert target[..] == Overlay(old(target[..]), source[..length]);
  }

  method BuildI2cData(data: array?<byte>, resid: byte, cmd: byte, payload: array?<byte>, length: nat)
    returns (size: nat)
    requires data != null ==> data.Length == TRANSACTION_MAX_BYTES && data != payload
    requires Holds(Bytes(payload), length)
    modifies data
    ensures data == null ==> size == 0
    ensures data != null ==>
              && size == |I2cFrame(resid, cmd, Bytes(payload), length)| <= data.Length
              && data[..] == Overlay(old(data[..]), I2cFrame(resid, cmd, Bytes(payload), length))
  {
    if data == null {
      return 0;
    } else if length > DATA_MAX_BYTES {
      return 0;
    }
    data[0], data[1], data[2] := resid, cmd, length;
    if IsRead(cmd) || payload == null {
      return 3;
    }
    ghost var before, header: seq<byte> := old(data[..]), [resid, cmd, length];
    var i := 0;
    while i < length
      invariant 0 <= i <= length
      invariant data[..] == Overlay(before, header + payload[..i])
    {
      OverlayOneMore(before, header + payload[..i], payload[i]);
      assert header + payload[..i + 1] == header + payload[..i] + [payload[i]];
      data[3 + i] := payload[i];
      i := i + 1;
    }
    return 3 + length;
  }

  /** A write longer than DATA_MAX_BYTES would leave the caller's buffer. */
  method BuildSpiData(data: array?<byte>, resid: byte, cmd: byte, payload: array?<byte>, length: nat)
    returns (size: nat)
    requires data != null ==> data.Length == TRANSACTION_MAX_BYTES && data != payload
    requires Holds(Bytes(payload), length)
    requires SpiFits(cmd, Bytes(payload), length)
    modifies data
    ensures data == null ==> size == 0
    ensures data != null ==>
              && size == |SpiFrame(resid, cmd, Bytes(payload), length)| <= data.Length
              && data[..size] == SpiFrame(resid, cmd, Bytes(payload), length)
              && (size > 0 ==> forall i :: size <= i < 8 ==> data[i] == 0)
              && (forall i :: 8 <= i < data.Length && size <= i ==> data[i] == old(data[i]))
  {
    if data == null {
      return 0;
    } else if length > TRANSACTION_MAX_BYTES {
      return 0;
    }
    data[0], data[1], data[2] := resid, cmd, length % 256;
    for i := 0 to 5
      invariant data[..3 + i] == [resid, cmd, length % 256] + Zeros(i)
      invariant forall k :: 8 <= k < data.Length ==> data[k] == old(data[k])
    {
      data[3 + i] := 0;
    }
    assert forall k :: 3 <= k < 8 ==> data[k] == data[..8][k] == 0;
    if IsRead(cmd) || payload == null {
      assert data[..8] == [resid, cmd, length % 256, 0, 0, 0, 0, 0];
      return 8;
    }
    for i := 0 to length
      invariant data[..3 + i] == [resid, cmd, length] + payload[..i]
      invariant forall k :: 3 + i <= k < 8 ==> data[k] == 0
      invariant forall k :: 8 <= k < data.Length && 3 + i <= k ==> data[k] == old(data[k])
    {
      data[3 + i] := payload[i];
    }
    return 3 + length;
  }

  /** The fourth header byte is padding and keeps whatever the buffer held. */
  method XscopeCreateUploadBuffer(buffer: array?<byte>, cmd: byte, resid: byte, payload: array?<byte>, length: nat)
    returns (size: nat)
    requires buffer != null ==> buffer.Length == 4 * XSCOPE_UPLOAD_MAX_WORDS && buffer != payload
    requires Holds(Bytes(payload), length)
    modifies buffer
    ensures size == 0 <==> buffer == null || length > XSCOPE_UPLOAD_MAX_WORDS
    ensures buffer != null ==>
              match XscopeFrame(old(buffer[..]), resid, cmd, Bytes(payload), length)
              case None => buffer[..] == old(buffer[..])
              case Some((after, n)) => buffer[..] == after && size == n
  {
    if buffer == null {
      return 0;
    } else if length > XSCOPE_UPLOAD_MAX_WORDS {
      return 0;
    }
    buffer[0], buffer[1], buffer[2] := resid, cmd, length;
    if !IsRead(cmd) && payload != null {
      ghost var headed := buffer[..];
      if length + XSCOPE_HEADER_BYTES <= buffer.Length {
        forall i | 0 <= i < length {
          buffer[XSCOPE_HEADER_BYTES + i] := payload[i];
        }
        assert buffer[..] == headed[..XSCOPE_HEADER_BYTES] + payload[..length] + headed[XSCOPE_HEADER_BYTES + length..];
      }
      assert headed == old(buffer[..])[0 := resid][1 := cmd][2 := length];
      size := XSCOPE_HEADER_BYTES + length;
    } else {
      assert buffer[..] == old(buffer[..])[0 := resid][1 := cmd][2 := length];
      size := XSCOPE_HEADER_BYTES;
    }
  }

  method UsbFillHeader(resid: byte, cmd: byte, length: nat) returns (windex: nat, wvalue: nat, wlength: nat)
    requires length < 0x1_0000
    ensures windex % 256 == resid && wvalue % 256 == cmd && wlength == length
    ensures windex < 0x1_0000 && wvalue < 0x1_0000 && wlength < 0x1_0000
  {
    windex, wvalue, wlength := resid, cmd, length;
  }
}
