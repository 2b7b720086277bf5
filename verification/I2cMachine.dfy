/** The I2C slave: five bus events over one static record. */
module I2cMachine {
  import opened ControlTypes
  import opened ResourceTables
  import opened ControlCore

  datatype State =
    | Idle | WriteStart | WriteResid | WriteCmd | WriteSize | WriteData
    | WriteOverflow | ReadStart | ReadData | ReadOverflow | Error

  datatype I2c = I2c(state: State, resid: byte, cmd: byte, ifnum: byte,
                     declared: byte, sent: nat, payload: Buffer)

  const INITIAL := I2c(Idle, 0, 0, 0, 0, 0, Zeros(DATA_MAX_BYTES))

  datatype Step = Step(core: Core, i2c: I2c, ret: byte)

  /** `data` is None where the handler returns without assigning it. */
  datatype ReadStep = ReadStep(i2c: I2c, ret: byte, data: Option<byte>)

  function OnWriteStart(i2c: I2c): I2c {
    i2c.(state := WriteStart)
  }

  /** The payload byte that the next data event touches lies in the buffer. */
  predicate InRange(i2c: I2c) {
    i2c.state in {WriteData, ReadData} && i2c.sent != i2c.declared ==> i2c.sent < DATA_MAX_BYTES
  }

  function Deliver(core: Core, i2c: I2c): Step {
    if i2c.sent == i2c.declared then
      var w := RunWrite(core, i2c.ifnum, i2c.resid, i2c.cmd, i2c.payload[..Min(i2c.sent, DATA_MAX_BYTES)]);
      Step(w.core, i2c, w.ret)
    else
      Step(core, i2c, SUCCESS)
  }

  /** Every use is inside the buffer when `InRange` holds. */
  function Store(payload: Buffer, i: nat, data: byte): Buffer {
    if i < DATA_MAX_BYTES then payload[i := data] else payload
  }

  function HandleData(core: Core, i2c: I2c, data: byte): Step {
    match i2c.state
    case WriteStart =>
      (match Search(core.table, data)
       case None => Step(core, i2c.(state := Error), BAD_COMMAND)
       case Some(ifnum) => Step(core, i2c.(resid := data, ifnum := ifnum, state := WriteResid), SUCCESS))
    case WriteResid =>
      Step(core, i2c.(cmd := data, state := WriteCmd), SUCCESS)
    case WriteCmd =>
      if data > DATA_MAX_BYTES then
        Step(core, i2c.(state := Error), BAD_COMMAND)
      else
        Deliver(core, i2c.(declared := data, sent := 0, state := WriteSize))
    case WriteSize =>
      if IsRead(i2c.cmd) then
        Step(core, i2c.(state := Error), OTHER_TRANSPORT_ERROR)
      else
        Deliver(core, i2c.(payload := i2c.payload[0 := data], sent := 1, state := WriteData))
    case WriteData =>
      if i2c.sent == i2c.declared then
        Step(core, i2c.(state := WriteOverflow), DATA_LENGTH_ERROR)
      else
        Deliver(core, i2c.(payload := Store(i2c.payload, i2c.sent, data), sent := i2c.sent + 1))
    case WriteOverflow =>
      Step(core, i2c, SUCCESS)
    case _ =>
      Step(core, i2c.(state := Error), ERROR)
  }

  function OnWriteData(core: Core, i2c: I2c, data: byte): Step {
    var s := HandleData(core, i2c, data);
    s.(core := s.core.(lastStatus := s.ret))
  }

  function OnReadStart(core: Core, i2c: I2c): Step {
    if i2c.state != WriteSize || !IsRead(i2c.cmd) then
      Step(core, i2c.(state := Error), OTHER_TRANSPORT_ERROR)
    else
      var n := Min(i2c.declared, DATA_MAX_BYTES);
      var r := RunRead(core, i2c.ifnum, i2c.resid, i2c.cmd, i2c.payload[..n]);
      var filled := i2c.(payload := Overlay(i2c.payload, r.data));
      Step(r.core, if r.ret == SUCCESS then filled.(sent := 0, state := ReadStart) else filled, r.ret)
  }

  function OnReadData(i2c: I2c): ReadStep {
    match i2c.state
    case ReadStart =>
      ReadStep(i2c.(sent := 1, state := ReadData), SUCCESS, Some(i2c.payload[0]))
    case ReadData =>
      if i2c.sent == i2c.declared then
        ReadStep(i2c.(state := ReadOverflow), SUCCESS, None)
      else
        ReadStep(i2c.(sent := i2c.sent + 1), SUCCESS,
                 if i2c.sent < DATA_MAX_BYTES then Some(i2c.payload[i2c.sent]) else None)
    case _ =>
      ReadStep(i2c.(state := Error), ERROR, None)
  }

  lemma SpliceAtStart(bytes: seq<byte>, data: seq<byte>)
    requires |data| <= |bytes|
    ensures Splice(bytes, 0, data) == Overlay(bytes, data)
  {
  }

  function StopVerdict(i2c: I2c): byte {
    match i2c.state
    case WriteSize => if i2c.declared != 0 then DATA_LENGTH_ERROR else SUCCESS
    case WriteData => if i2c.sent < i2c.declared then DATA_LENGTH_ERROR else SUCCESS
    case WriteOverflow => SUCCESS
    case ReadStart => OTHER_TRANSPORT_ERROR
    case ReadData => if i2c.sent < i2c.declared then DATA_LENGTH_ERROR else SUCCESS
    case ReadOverflow => SUCCESS
    case _ => OTHER_TRANSPORT_ERROR
  }

  function OnStop(i2c: I2c): I2c {
    i2c.(state := Idle)
  }

  /** The static `i2c` record and its five handlers. */
  class I2cSlave {
    const control: Control
    const payload: array<byte>
    var state: State
    var resid: byte
    var cmd: byte
    var ifnum: byte
    var payloadLenFromHeader: byte
    var payloadLenTransmitted: nat

    ghost predicate Valid() {
      control.Valid() && payload.Length == DATA_MAX_BYTES && payload != control.table.entries
    }

    ghost function View(): I2c
      requires Valid()
      reads this, payload
    {
      I2c(state, resid, cmd, ifnum, payloadLenFromHeader, payloadLenTransmitted, payload[..])
    }

    constructor (control: Control)
      requires control.Valid()
      ensures Valid() && this.control == control && fresh(payload)
      ensures View() == INITIAL
    {
      this.control := control;
      payload := new byte[DATA_MAX_BYTES](i => 0);
      state, resid, cmd, ifnum := Idle, 0, 0, 0;
      payloadLenFromHeader, payloadLenTransmitted := 0, 0;
      new;
      assert payload[..] == Zeros(DATA_MAX_BYTES);
    }

    method ProcessWriteStart() returns (ret: byte)
      requires Valid()
      modifies this
      ensures View() == OnWriteStart(old(View()))
      ensures ret == SUCCESS
    {
      state := WriteStart;
      ret := SUCCESS;
    }

    /** The last step of three branches of the data handler: the write command, once the declared length is there. */
    method DeliverIfComplete() returns (ret: byte)
      requires Valid() && payloadLenTransmitted <= DATA_MAX_BYTES
      modifies control
      ensures Step(control.View(), View(), ret) == Deliver(old(control.View()), old(View()))
    {
      if payloadLenTransmitted == payloadLenFromHeader {
        assert payload[0..payloadLenTransmitted] == payload[..][..payloadLenTransmitted];
        ret := control.WriteCommand(ifnum, resid, cmd, payload, 0, payloadLenTransmitted);
      } else {
        ret := SUCCESS;
      }
    }

    /** The data handler up to its last statement, which stores the code. */
    method DispatchWriteData(data: byte) returns (ret: byte)
      requires Valid() && InRange(View())
      modifies this, payload, control
      ensures Step(control.View(), View(), ret) == HandleData(old(control.View()), old(View()), data)
    {
      ret := ERROR;
      if state == WriteStart {
        var code, found := control.table.SearchTable(data);
        if code != 0 {
          state := Error;
          ret := BAD_COMMAND;
        } else {
          resid, ifnum, state := data, found, WriteResid;
          ret := SUCCESS;
        }
      } else if state == WriteResid {
        cmd, state := data, WriteCmd;
        ret := SUCCESS;
      } else if state == WriteCmd {
        if data > DATA_MAX_BYTES {
          state := Error;
          ret := BAD_COMMAND;
        } else {
          payloadLenFromHeader, payloadLenTransmitted, state := data, 0, WriteSize;
          ret := DeliverIfComplete();
        }
      } else if state == WriteSize {
        if IsRead(cmd) {
          state := Error;
          ret := OTHER_TRANSPORT_ERROR;
        } else {
          payload[0] := data;
          assert payload[..] == old(payload[..])[0 := data];
          payloadLenTransmitted, state := 1, WriteData;
          ret := DeliverIfComplete();
        }
      } else if state == WriteData {
        if payloadLenTransmitted == payloadLenFromHeader {
          state := WriteOverflow;
          ret := DATA_LENGTH_ERROR;
        } else {
          payload[payloadLenTransmitted] := data;
          assert payload[..] == Store(old(payload[..]), payloadLenTransmitted, data);
          payloadLenTransmitted := payloadLenTransmitted + 1;
          ret := DeliverIfComplete();
        }
      } else if state == WriteOverflow {
        ret := SUCCESS;
      } else {
        state := Error;
        ret := ERROR;
      }
    }

    method ProcessWriteData(data: byte) returns (ret: byte)
      requires Valid() && InRange(View())
      modifies this, payload, control
      ensures Step(control.View(), View(), ret) == OnWriteData(old(control.View()), old(View()), data)
    {
      ret := DispatchWriteData(data);
      control.lastStatus := ret;
    }

    method ReadIntoPayload() returns (ret: byte)
      requires Valid() && payloadLenFromHeader <= DATA_MAX_BYTES
      modifies payload, control
      ensures var i2c := old(View());
              var r := RunRead(old(control.View()), i2c.ifnum, i2c.resid, i2c.cmd, i2c.payload[..i2c.declared]);
              && control.View() == r.core && ret == r.ret && |r.data| == i2c.declared
              && View() == i2c.(payload := Overlay(i2c.payload, r.data))
    {
      ghost var n: nat := payloadLenFromHeader;
      ghost var bytes := payload[..];
      assert payload[0..n] == bytes[..n];
      ghost var r := RunRead(control.View(), ifnum, resid, cmd, bytes[..n]);
      ret := control.ReadCommand(ifnum, resid, cmd, payload, 0, payloadLenFromHeader);
      SpliceAtStart(bytes, r.data);
    }

    method ProcessReadStart() returns (ret: byte)
      requires Valid() && (state == WriteSize ==> payloadLenFromHeader <= DATA_MAX_BYTES)
      modifies this, payload, control
      ensures Step(control.View(), View(), ret) == OnReadStart(old(control.View()), old(View()))
    {
      if state != WriteSize {
        state := Error;
        return OTHER_TRANSPORT_ERROR;
      }
      if IsRead(cmd) {
        ret := ReadIntoPayload();
        if ret == SUCCESS {
          payloadLenTransmitted, state := 0, ReadStart;
        }
      } else {
        state := Error;
        return OTHER_TRANSPORT_ERROR;
      }
    }

    method ProcessReadData() returns (ret: byte, data: Option<byte>)
      requires Valid() && InRange(View())
      modifies this
      ensures ReadStep(View(), ret, data) == OnReadData(old(View()))
    {
      data := None;
      if state == ReadStart {
        data := Some(payload[0]);
        payloadLenTransmitted, state := 1, ReadData;
        ret := SUCCESS;
      } else if state == ReadData {
        if payloadLenTransmitted == payloadLenFromHeader {
          state := ReadOverflow;
          return SUCCESS, None;
        }
        data := Some(payload[payloadLenTransmitted]);
        payloadLenTransmitted := payloadLenTransmitted + 1;
        ret := SUCCESS;
      } else {
        state := Error;
        ret := ERROR;
      }
    }

    method ProcessStop() returns (ret: byte)
      requires Valid()
      modifies this
      ensures View() == OnStop(old(View()))
      ensures ret == StopVerdict(old(View()))
    {
      ret := SUCCESS;
      if state == WriteSize {
        ret := if payloadLenFromHeader != 0 then DATA_LENGTH_ERROR else SUCCESS;
      } else if state == WriteData {
        if payloadLenTransmitted < payloadLenFromHeader {
          ret := DATA_LENGTH_ERROR;
        }
      } else if state == WriteOverflow {
      } else if state == ReadStart {
        ret := OTHER_TRANSPORT_ERROR;
      } else if state == ReadData {
        if payloadLenTransmitted < payloadLenFromHeader {
          ret := DATA_LENGTH_ERROR;
        }
      } else if state == ReadOverflow {
      } else {
        state := Idle;
        return OTHER_TRANSPORT_ERROR;
      }
      state := Idle;
    }
  }
}
