/** Bytes, return codes and command-code arithmetic shared by the device and the host. */
module ControlTypes {

  type byte = b: int | 0 <= b < 256

  datatype Option<+T> = None | Some(value: T) {
    function GetOr(default: T): T {
      if Some? then value else default
    }
  }

  // Values of control_ret_t
  const SUCCESS: byte := 0
  const REGISTRATION_FAILED: byte := 1
  const BAD_COMMAND: byte := 2
  const DATA_LENGTH_ERROR: byte := 3
  const OTHER_TRANSPORT_ERROR: byte := 4
  const ERROR: byte := 5

  const CONTROL_VERSION: byte := 0x10
  const SPECIAL_RESID: byte := 0
  const GET_VERSION: byte := 0x80
  const GET_LAST_COMMAND_STATUS: byte := 0x81

  const READ_BIT := 0x80

  const RESOURCE_TABLE_MAX := 256
  const IFNUM_RESERVED: byte := 255

  /** Payload capacity of an I2C or SPI transaction: 256 bytes less a three-byte header. */
  const DATA_MAX_BYTES := 253

  type Buffer = s: seq<byte> | |s| == DATA_MAX_BYTES witness seq(DATA_MAX_BYTES, i => 0)

  predicate IsRead(cmd: byte) {
    cmd >= READ_BIT
  }

  function SetRead(cmd: byte): byte {
    if IsRead(cmd) then cmd else cmd + READ_BIT
  }

  function SetWrite(cmd: byte): byte {
    cmd % READ_BIT
  }

  /** The three functions above are the masking macros on eight-bit values. */
  lemma ReadBitIsBitSeven(c: bv8)
    ensures IsRead(c as int) <==> c & 0x80 != 0
    ensures SetRead(c as int) == (c | 0x80) as int
    ensures SetWrite(c as int) == (c & 0x7F) as int
  {
  }

  function Zeros(n: nat): (s: seq<byte>)
    ensures |s| == n
    ensures forall i :: 0 <= i < n ==> s[i] == 0
  {
    seq(n, i => 0)
  }

  /** `buffer` after `bytes` have been stored at its start. */
  function Overlay(buffer: seq<byte>, bytes: seq<byte>): (r: seq<byte>)
    requires |bytes| <= |buffer|
    ensures |r| == |buffer|
    ensures r[..|bytes|] == bytes
  {
    bytes + buffer[|bytes|..]
  }

  /** One more byte is stored. */
  lemma OverlayOneMore(buffer: seq<byte>, bytes: seq<byte>, next: byte)
    requires |bytes| < |buffer|
    ensures Overlay(buffer, bytes)[|bytes| := next] == Overlay(buffer, bytes + [next])
    ensures Overlay(buffer, bytes)[|bytes|] == buffer[|bytes|]
  {
  }

  /** What lies behind the stored bytes is untouched. */
  lemma OverlayKeepsRest(buffer: seq<byte>, bytes: seq<byte>, lo: nat, hi: nat)
    requires |bytes| <= lo <= hi <= |buffer|
    ensures Overlay(buffer, bytes)[lo..hi] == buffer[lo..hi]
  {
    forall k | lo <= k < hi
      ensures Overlay(buffer, bytes)[k] == buffer[k]
    {
    }
  }

  function Min(a: int, b: int): int {
    if a < b then a else b
  }
}
