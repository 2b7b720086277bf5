/** The SPI slave: supplied bytes, requests for bytes, and transaction ends. */
module SpiMachine {
  import opened ControlTypes
  import opened ResourceTables
  import opened ControlCore

  datatype State =
    | Idle | ResRecvd | WriteCmdRecvd | WriteData | ReadCmdRecvd
    | ReadDataStart | ReadDataWait | ReadData | Error | PayloadError

  datatype Spi = Spi(state: State, resid: byte, cmd: byte, ifnum: byte,
                     declared: byte, sent: nat, payload: Buffer)

  const INITIAL := Spi(Idle, 0, 0, 0, 0, 0, Zeros(DATA_MAX_BYTES))

  datatype Supply = Supply(spi: Spi, ret: byte)

  datatype Poll = Poll(core: Core, spi: Spi, ret: byte, data: byte)

  datatype End = End(core: Core, spi: Spi, ret: byte)

  /** How many payload bytes the machine accepts or returns. */
  function Capacity(declared: byte): nat {
    Min(declared, DATA_MAX_BYTES)
  }

  /** The next read command fits the buffer. */
  predicate InRange(spi: Spi) {
    spi.state == ReadDataStart ==> spi.declared <= DATA_MAX_BYTES
  }

  function OnSupplied(core: Core, spi: Spi, datum: byte): Supply {
    var s := if spi.state == ReadDataWait && datum != 0 then INITIAL else spi;
    match s.state
    case Idle =>
      (match Search(core.table, datum)
       case None => Supply(s.(state := Error), ERROR)
       case Some(ifnum) => Supply(s.(resid := datum, ifnum := ifnum, state := ResRecvd), SUCCESS))
    case ResRecvd =>
      Supply(s.(cmd := datum, state := if IsRead(datum) then ReadCmdRecvd else WriteCmdRecvd), SUCCESS)
    case ReadCmdRecvd =>
      Supply(s.(declared := datum, state := ReadDataStart), SUCCESS)
    case WriteCmdRecvd =>
      Supply(s.(declared := datum, state := WriteData), SUCCESS)
    case WriteData =>
      if s.sent < Capacity(s.declared) then
        Supply(s.(payload := s.payload[s.sent := datum], sent := s.sent + 1), SUCCESS)
      else
        Supply(s.(state := PayloadError, sent := s.sent + 1), ERROR)
    case PayloadError =>
      Supply(s.(sent := s.sent + 1), SUCCESS)
    case _ =>
      Supply(s, SUCCESS)
  }

  function OnRequired(core: Core, spi: Spi): Poll {
    match spi.state
    case ReadDataStart =>
      var r := RunRead(core, spi.ifnum, spi.resid, spi.cmd, spi.payload[..Capacity(spi.declared)]);
      Poll(r.core, spi.(payload := Overlay(spi.payload, r.data), state := ReadDataWait), r.ret, 0)
    case ReadData =>
      if spi.sent < Capacity(spi.declared) then
        Poll(core, spi.(sent := spi.sent + 1), SUCCESS, spi.payload[spi.sent])
      else
        Poll(core, spi, SUCCESS, 0)
    case _ =>
      Poll(core, spi, SUCCESS, 0)
  }

  function OnEnd(core: Core, spi: Spi): End {
    match spi.state
    case WriteData =>
      if spi.sent < spi.declared then
        End(core, INITIAL, ERROR)
      else
        var w := RunWrite(core, spi.ifnum, spi.resid, spi.cmd, spi.payload[..Min(spi.sent, DATA_MAX_BYTES)]);
        End(w.core, INITIAL, w.ret)
    case ReadDataWait =>
      End(core, spi.(state := ReadData), SUCCESS)
    case _ =>
      End(core, INITIAL, SUCCESS)
  }

  /** The static `spi` record and its three handlers. */
  class SpiSlave {
    const control: Control
    const payload: array<byte>
    var state: State
    var resid: byte
    var cmd: byte
    var ifnum: byte
    var payloadLenFromHeader: byte
    var payloadLenTransmitted: nat

    ghost predicate Valid()
    {
      control.Valid() && payload.Length == DATA_MAX_BYTES && payload != control.table.entries
    }

    ghost function View(): Spi
      requires Valid()
      reads this, payload
    {
      Spi(state, resid, cmd, ifnum, payloadLenFromHeader, payloadLenTransmitted, payload[..])
    }

    constructor (control: Control)
      requires control.Valid()
      ensures Valid() && this.control == control && fresh(payload)
      ensures View() == INITIAL
    {
      this.control := control;
      payload := new byte[DATA_MAX_BYTES](i => 0);
      state, resid, cmd, ifnum := Idle, 0, 0, 0;
      payloadLenFromHeader, payloadLenTransmitted := 0, 0;
      new;
      assert payload[..] == Zeros(DATA_MAX_BYTES);
    }

    method Reset()
      requires Valid()
      modifies this, payload
      ensures View() == INITIAL
    {
      state, resid, cmd, ifnum := Idle, 0, 0, 0;
      payloadLenFromHeader, payloadLenTransmitted := 0, 0;
      forall i | 0 <= i < payload.Length {
        payload[i] := 0;
      }
      assert payload[..] == Zeros(DATA_MAX_BYTES);
    }

    /** In WriteData the bytes handed over lie in the buffer; the counter invariant keeps this. */
    method ProcessEndsTransaction() returns (ret: byte)
      requires Valid() && (state == WriteData ==> payloadLenTransmitted <= DATA_MAX_BYTES)
      modifies this, payload, control
      ensures End(control.View(), View(), ret) == OnEnd(old(control.View()), old(View()))
    {
      ret := SUCCESS;
      var reset := true;
      match state {
        case WriteData =>
          if payloadLenTransmitted < payloadLenFromHeader {
            ret := ERROR;
          } else {
            ret := control.WriteCommand(ifnum, resid, cmd, payload, 0, payloadLenTransmitted);
          }
        case ReadDataWait =>
          state := ReadData;
          reset := false;
        case _ =>
      }
      if reset {
        Reset();
      }
    }

    method ProcessRequiresData() returns (ret: byte, data: byte)
      requires Valid() && InRange(View())
      modifies this, payload, control
      ensures Poll(control.View(), View(), ret, data) == OnRequired(old(control.View()), old(View()))
    {
      ret, data := SUCCESS, 0;
      match state {
        case ReadDataStart =>
          ret := control.ReadCommand(ifnum, resid, cmd, payload, 0, payloadLenFromHeader);
          state := ReadDataWait;
        case ReadData =>
          if payloadLenTransmitted < payloadLenFromHeader && payloadLenTransmitted < DATA_MAX_BYTES {
            data := payload[payloadLenTransmitted];
            payloadLenTransmitted := payloadLenTransmitted + 1;
          }
        case _ =>
      }
    }

    method ProcessSuppliedData(datum: byte, validBits: nat) returns (ret: byte)
      requires Valid()
      modifies this, payload
      ensures validBits == 8 ==> Supply(View(), ret) == OnSupplied(control.View(), old(View()), datum)
      ensures validBits != 8 ==> View() == old(View()) && ret == ERROR
    {
      ret := SUCCESS;
      if validBits != 8 {
        return ERROR;
      }
      if state == ReadDataWait && datum != 0 {
        Reset();
      }
      match state {
        case Idle =>
          var code, found := control.table.SearchTable(datum);
          if code != 0 {
            state := Error;
            ret := ERROR;
          } else {
            resid, ifnum, state := datum, found, ResRecvd;
          }
        case ResRecvd =>
          cmd := datum;
          if IsRead(datum) {
            state := ReadCmdRecvd;
          } else {
            state := WriteCmdRecvd;
          }
        case ReadCmdRecvd =>
          payloadLenFromHeader, state := datum, ReadDataStart;
        case WriteCmdRecvd =>
          payloadLenFromHeader, state := datum, WriteData;
        case WriteData =>
          if payloadLenTransmitted < payloadLenFromHeader && payloadLenTransmitted < DATA_MAX_BYTES {
            payload[payloadLenTransmitted] := datum;
          } else {
            state := PayloadError;
            ret := ERROR;
          }
          payloadLenTransmitted := payloadLenTransmitted + 1;
        case PayloadError =>
          payloadLenTransmitted := payloadLenTransmitted + 1;
        case _ =>
      }
    }
  }
}
