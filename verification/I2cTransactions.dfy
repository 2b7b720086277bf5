/** What a whole I2C write transaction means, read off its bytes at once. */
module I2cTransactions {
  import opened ControlTypes
  import opened ResourceTables
  import opened ControlCore
  import opened I2cMachine

  /** The handlers applied to the bytes of a write transaction, one at a time. */
  function SendBytes(core: Core, i2c: I2c, bytes: seq<byte>): Step {
    if bytes == [] then Step(core, i2c, SUCCESS)
    else
      var s := SendBytes(core, i2c, bytes[..|bytes| - 1]);
      OnWriteData(s.core, s.i2c, bytes[|bytes| - 1])
  }

  // ----- The one-shot reading -----

  function Finish(core: Core, i2c: I2c, ret: byte): Step {
    Step(core.(lastStatus := ret), i2c, ret)
  }

  /** The bytes after an accepted header. `data` may fall short of, meet or exceed the declared length. */
  function ParseBody(core: Core, header: I2c, data: seq<byte>): Step {
    var n, k := header.declared, |data|;
    if k == 0 then
      if n == 0 then
        var w := RunWrite(core, header.ifnum, header.resid, header.cmd, []);
        Finish(w.core, header.(state := WriteSize), w.ret)
      else
        Finish(core, header.(state := WriteSize), SUCCESS)
    else if IsRead(header.cmd) then
      var c := if n == 0 then RunWrite(core, header.ifnum, header.resid, header.cmd, []).core else core;
      Finish(c, header.(state := Error), if k == 1 then OTHER_TRANSPORT_ERROR else ERROR)
    else
      var kept := if n == 0 then Min(k, DATA_MAX_BYTES) else Min(k, Min(n, DATA_MAX_BYTES));
      var i2c := header.(payload := Overlay(header.payload, data[..kept]), sent := if n == 0 then k else Min(k, n),
                         state := if 0 < n < k then WriteOverflow else WriteData);
      if k < n then Finish(core, i2c, SUCCESS)
      else
        var w := RunWrite(core, header.ifnum, header.resid, header.cmd, data[..n]);
        Finish(w.core, i2c, if n == k then w.ret else if 0 < n == k - 1 then DATA_LENGTH_ERROR else SUCCESS)
  }

  /** The transaction as a function of all its bytes; `before` is the record at the start event. */
  function ParseWrite(core: Core, before: I2c, bytes: seq<byte>): Step {
    if bytes == [] then Step(core, before.(state := WriteStart), SUCCESS)
    else match Search(core.table, bytes[0])
      case None => Finish(core, before.(state := Error), if |bytes| == 1 then BAD_COMMAND else ERROR)
      case Some(ifnum) =>
        var named := before.(resid := bytes[0], ifnum := ifnum);
        if |bytes| == 1 then Finish(core, named.(state := WriteResid), SUCCESS)
        else if |bytes| == 2 then Finish(core, named.(cmd := bytes[1], state := WriteCmd), SUCCESS)
        else if bytes[2] > DATA_MAX_BYTES then
          Finish(core, named.(cmd := bytes[1], state := Error), if |bytes| == 3 then BAD_COMMAND else ERROR)
        else
          ParseBody(core, named.(cmd := bytes[1], declared := bytes[2], sent := 0), bytes[3..])
  }

  /** A zero-length write command followed by more data than the buffer holds: the one run that leaves it. */
  predicate Overruns(table: Table, bytes: seq<byte>) {
    && |bytes| > 3 + DATA_MAX_BYTES
    && Search(table, bytes[0]).Some? && !IsRead(bytes[1]) && bytes[2] == 0
  }

  lemma FirstBodyByte(core: Core, header: I2c, data: seq<byte>)
    requires |data| == 1 && header.declared <= DATA_MAX_BYTES && header.sent == 0
    ensures var s := ParseBody(core, header, []);
            OnWriteData(s.core, s.i2c, data[0]) == ParseBody(core, header, data)
  {
    assert header.payload[0 := data[0]] == Overlay(header.payload, data[..1]);
    assert Overlay(header.payload, data[..1])[..1] == data[..1] && data[..0] == [];
  }

  /** A later byte of a body that is still being stored. */
  lemma StoredBodyByte(core: Core, header: I2c, data: seq<byte>)
    requires 1 < |data| <= DATA_MAX_BYTES && header.declared <= DATA_MAX_BYTES && header.sent == 0
    requires !IsRead(header.cmd) && (header.declared == 0 || |data| <= header.declared)
    ensures var s := ParseBody(core, header, data[..|data| - 1]);
            OnWriteData(s.core, s.i2c, data[|data| - 1]) == ParseBody(core, header, data)
  {
    var init := data[..|data| - 1];
    assert init[..|init|] == init && data[..|data|] == data;
    assert init + [data[|data| - 1]] == data;
    OverlayOneMore(header.payload, init, data[|data| - 1]);
    assert Overlay(header.payload, data)[..|data|] == data;
  }

  /** A byte that comes after the declared ones. */
  lemma SurplusBodyByte(core: Core, header: I2c, data: seq<byte>)
    requires 0 < header.declared < |data| && header.declared <= DATA_MAX_BYTES && header.sent == 0
    requires !IsRead(header.cmd)
    ensures var s := ParseBody(core, header, data[..|data| - 1]);
            OnWriteData(s.core, s.i2c, data[|data| - 1]) == ParseBody(core, header, data)
  {
    assert data[..|data| - 1][..header.declared] == data[..header.declared];
  }

  lemma ParseBodyStep(core: Core, header: I2c, data: seq<byte>)
    requires data != [] && header.declared <= DATA_MAX_BYTES && header.sent == 0
    requires header.declared == 0 && !IsRead(header.cmd) ==> |data| <= DATA_MAX_BYTES
    ensures var s := ParseBody(core, header, data[..|data| - 1]);
            OnWriteData(s.core, s.i2c, data[|data| - 1]) == ParseBody(core, header, data)
  {
    if |data| == 1 {
      assert data[..0] == [];
      FirstBodyByte(core, header, data);
    } else if IsRead(header.cmd) {
    } else if header.declared == 0 || |data| <= header.declared {
      StoredBodyByte(core, header, data);
    } else {
      SurplusBodyByte(core, header, data);
    }
  }

  lemma ParseStep(core: Core, before: I2c, bytes: seq<byte>)
    requires bytes != [] && !Overruns(core.table, bytes)
    ensures var s := ParseWrite(core, before, bytes[..|bytes| - 1]);
            OnWriteData(s.core, s.i2c, bytes[|bytes| - 1]) == ParseWrite(core, before, bytes)
  {
    var init := bytes[..|bytes| - 1];
    if |bytes| > 3 && Search(core.table, bytes[0]).Some? && bytes[2] <= DATA_MAX_BYTES {
      var header := before.(resid := bytes[0], ifnum := Search(core.table, bytes[0]).value,
                            cmd := bytes[1], declared := bytes[2], sent := 0);
      ParseBodyStep(core, header, bytes[3..]);
      assert init[3..] == bytes[3..][..|bytes[3..]| - 1];
    } else {
      assert |bytes| == 3 ==> bytes[3..] == [];
    }
  }

  /**
   * Main result: from any earlier state the byte-by-byte machine computes the one-shot reading:
   * state, header fields, payload buffer, task calls, status register and verdict.
   */
  lemma {:induction false} MachineRefinesParser(core: Core, before: I2c, bytes: seq<byte>)
    requires !Overruns(core.table, bytes)
    ensures SendBytes(core, OnWriteStart(before), bytes) == ParseWrite(core, before, bytes)
    decreases |bytes|
  {
    if bytes == [] {
    } else {
      MachineRefinesParser(core, before, bytes[..|bytes| - 1]);
      ParseStep(core, before, bytes);
    }
  }

  /** Every payload access of the transaction is inside the buffer exactly when it does not overrun. */
  lemma AccessesInRangeIff(core: Core, before: I2c, bytes: seq<byte>)
    ensures (forall k :: 0 <= k < |bytes| ==> InRange(SendBytes(core, OnWriteStart(before), bytes[..k]).i2c))
            <==> !Overruns(core.table, bytes)
  {
    if Overruns(core.table, bytes) {
      var k := 3 + DATA_MAX_BYTES;
      MachineRefinesParser(core, before, bytes[..k]);
      assert bytes[..k][3..] == bytes[3..k];
      assert !InRange(SendBytes(core, OnWriteStart(before), bytes[..k]).i2c);
    } else {
      forall k | 0 <= k < |bytes|
        ensures InRange(SendBytes(core, OnWriteStart(before), bytes[..k]).i2c)
      {
        MachineRefinesParser(core, before, bytes[..k]);
      }
    }
  }

  // ----- Verdicts -----

  /**
   * Declared length `n`, then any number of payload bytes, then stop. The stop succeeds exactly when enough
   * bytes came, and then the command was delivered once, with exactly the first `n`. Otherwise nothing was.
   */
  lemma WriteVerdictMatchesDelivery(core: Core, before: I2c, resid: byte, cmd: byte, n: byte, data: seq<byte>)
    requires Known(core, resid) && !IsRead(cmd) && n <= DATA_MAX_BYTES
    requires n == 0 ==> |data| <= DATA_MAX_BYTES
    ensures var s := SendBytes(core, OnWriteStart(before), [resid, cmd, n] + data);
            if |data| < n then
              StopVerdict(s.i2c) == DATA_LENGTH_ERROR && s.core.calls == core.calls
            else
              && StopVerdict(s.i2c) == SUCCESS
              && s.core.calls == AtomicWrite(core, resid, cmd, data[..n]).core.calls
              && (|data| == n ==> s.ret == s.core.lastStatus == AtomicWrite(core, resid, cmd, data).ret)
  {
    var bytes := [resid, cmd, n] + data;
    MachineRefinesParser(core, before, bytes);
    assert bytes[3..] == data;
    if |data| == n {
      assert data[..n] == data;
    }
    if n == 0 {
      assert data[..n] == [];
    }
  }

  /**
   * The code for the last byte of any write transaction, from which the acknowledgement follows. A byte that completes
   * the declared length gets the code of the write that it sets off.
   */
  lemma ByteCode(core: Core, before: I2c, bytes: seq<byte>)
    requires bytes != [] && !Overruns(core.table, bytes)
    ensures var ret := SendBytes(core, OnWriteStart(before), bytes).ret;
            if !Known(core, bytes[0]) then
              ret == if |bytes| == 1 then BAD_COMMAND else ERROR
            else if |bytes| <= 2 then
              ret == SUCCESS
            else if bytes[2] > DATA_MAX_BYTES then
              ret == if |bytes| == 3 then BAD_COMMAND else ERROR
            else if IsRead(bytes[1]) && |bytes| > 3 then
              ret == if |bytes| == 4 then OTHER_TRANSPORT_ERROR else ERROR
            else if |bytes| - 3 == bytes[2] then
              ret == AtomicWrite(core, bytes[0], bytes[1], bytes[3..]).ret
            else
              ret == if |bytes| - 4 == bytes[2] > 0 then DATA_LENGTH_ERROR else SUCCESS
  {
    MachineRefinesParser(core, before, bytes);
    if |bytes| >= 3 && |bytes| - 3 == bytes[2] {
      assert bytes[3..][..bytes[2]] == bytes[3..];
    }
  }

  /** A known resource and a length that fits. */
  predicate HeaderAccepted(table: Table, bytes: seq<byte>) {
    |bytes| >= 3 && Search(table, bytes[0]).Some? && bytes[2] <= DATA_MAX_BYTES
  }

  /** The verdict of a stop right after the bytes of any write transaction, malformed ones included. */
  lemma StopVerdictOfWrite(core: Core, before: I2c, bytes: seq<byte>)
    requires !Overruns(core.table, bytes)
    ensures StopVerdict(SendBytes(core, OnWriteStart(before), bytes).i2c)
            == if !HeaderAccepted(core.table, bytes) then OTHER_TRANSPORT_ERROR
               else if IsRead(bytes[1]) && |bytes| > 3 then OTHER_TRANSPORT_ERROR
               else if |bytes| - 3 < bytes[2] then DATA_LENGTH_ERROR
               else SUCCESS
  {
    MachineRefinesParser(core, before, bytes);
  }

  /** When a stop right after the bytes of any write transaction, malformed ones included, is a success. */
  lemma StopSucceedsIff(core: Core, before: I2c, bytes: seq<byte>)
    requires !Overruns(core.table, bytes)
    ensures StopVerdict(SendBytes(core, OnWriteStart(before), bytes).i2c) == SUCCESS
            <==> |bytes| >= 3 && Known(core, bytes[0]) && bytes[2] <= DATA_MAX_BYTES
                 && if IsRead(bytes[1]) then |bytes| == 3 && bytes[2] == 0 else |bytes| - 3 >= bytes[2]
  {
    StopVerdictOfWrite(core, before, bytes);
  }

  /**
   * A transaction with the read bit reaches a task's write handler exactly when it declares length zero, and then once,
   * with an empty payload.
   */
  lemma ReadHeaderWritesIff(core: Core, before: I2c, bytes: seq<byte>)
    requires |bytes| >= 2 && IsRead(bytes[1])
    ensures var calls := SendBytes(core, OnWriteStart(before), bytes).core.calls;
            && (calls != core.calls <==>
                  |bytes| >= 3 && bytes[2] == 0 && Known(core, bytes[0]) && bytes[0] != SPECIAL_RESID)
            && (calls != core.calls ==>
                  var request := WriteTo(Search(core.table, bytes[0]).value, bytes[0], bytes[1], []);
                  calls == core.calls + [Call(request, Answer(core, request))])
  {
    MachineRefinesParser(core, before, bytes);
  }

  /** `k` bytes read by the master, with what each handler call assigned. */
  function ReadBytes(i2c: I2c, k: nat): (r: (I2c, seq<Option<byte>>))
    ensures |r.1| == k
  {
    if k == 0 then (i2c, [])
    else
      var (s, data) := ReadBytes(i2c, k - 1);
      var r := OnReadData(s);
      (r.i2c, data + [r.data])
  }

  function ReadVerdict(n: byte, k: nat): byte {
    if k == 0 || k >= n + 2 then OTHER_TRANSPORT_ERROR else if k < n then DATA_LENGTH_ERROR else SUCCESS
  }

  /** The machine after a read header: only the record and the status register have changed. */
  lemma AfterReadHeader(core: Core, before: I2c, resid: byte, cmd: byte, n: byte)
    requires Known(core, resid) && IsRead(cmd) && 1 <= n <= DATA_MAX_BYTES
    ensures SendBytes(core, OnWriteStart(before), [resid, cmd, n])
            == Step(core.(lastStatus := SUCCESS),
                    before.(state := WriteSize, resid := resid, ifnum := Search(core.table, resid).value,
                            cmd := cmd, declared := n, sent := 0),
                    SUCCESS)
  {
    MachineRefinesParser(core, before, [resid, cmd, n]);
  }

  lemma ReadIgnoresBuffer(core: Core, ifnum: byte, resid: byte, cmd: byte, b0: seq<byte>, b1: seq<byte>)
    requires |b0| == |b1|
    ensures var r0, r1 := RunRead(core, ifnum, resid, cmd, b0), RunRead(core, ifnum, resid, cmd, b1);
            r0.core == r1.core && r0.ret == r1.ret && (r0.ret == SUCCESS ==> r0.data == r1.data)
  {
  }

  lemma {:induction false} ReadPhase(i2c: I2c, k: nat)
    requires i2c.state == ReadStart && i2c.sent == 0 && 1 <= i2c.declared <= DATA_MAX_BYTES
    ensures var n := i2c.declared;
            var (after, data) := ReadBytes(i2c, k);
            && (forall i :: 0 <= i < k ==> data[i] == if i < n then Some(i2c.payload[i]) else None)
            && after == i2c.(sent := Min(k, n),
                             state := if k == 0 then ReadStart else if k <= n then ReadData
                                      else if k == n + 1 then ReadOverflow else Error)
  {
    if k == 0 {
    } else {
      ReadPhase(i2c, k - 1);
    }
  }

  /** The read start after a read header: one atomic read, whose bytes the machine holds if it succeeded. */
  lemma ReadStartIsAtomic(core: Core, before: I2c, resid: byte, cmd: byte, n: byte)
    requires Known(core, resid) && IsRead(cmd) && 1 <= n <= DATA_MAX_BYTES
    ensures var s := SendBytes(core, OnWriteStart(before), [resid, cmd, n]);
            var started := OnReadStart(s.core, s.i2c);
            var atomic := AtomicRead(core.(lastStatus := SUCCESS), resid, cmd, n);
            && started.core == atomic.core && started.ret == atomic.ret
            && (started.ret != SUCCESS ==> started.i2c == s.i2c.(payload := started.i2c.payload))
            && (started.ret == SUCCESS ==>
                  && started.i2c.state == ReadStart && started.i2c.sent == 0 && started.i2c.declared == n
                  && started.i2c.payload[..n] == atomic.data)
  {
    AfterReadHeader(core, before, resid, cmd, n);
    var s := SendBytes(core, OnWriteStart(before), [resid, cmd, n]);
    ReadIgnoresBuffer(s.core, s.i2c.ifnum, resid, cmd, s.i2c.payload[..n], Zeros(n));
  }

  /** What the master gets from a machine that holds a read's bytes, and the verdict when it stops. */
  lemma HeldBytesDelivered(i2c: I2c, held: seq<byte>, k: nat)
    requires i2c.state == ReadStart && i2c.sent == 0 && 1 <= i2c.declared <= DATA_MAX_BYTES
    requires i2c.payload[..i2c.declared] == held
    ensures var (after, data) := ReadBytes(i2c, k);
            && (forall i :: 0 <= i < k ==> data[i] == if i < i2c.declared then Some(held[i]) else None)
            && StopVerdict(after) == ReadVerdict(i2c.declared, k)
  {
    ReadPhase(i2c, k);
  }

  /**
   * A read after its header: the task is called once. A failure leaves the machine where it was. On success the first
   * `n` bytes are the task's in order, the next handler call assigns nothing, and the stop verdict depends on the
   * number of bytes read alone.
   */
  lemma ReadDelivery(core: Core, before: I2c, resid: byte, cmd: byte, n: byte, k: nat)
    requires Known(core, resid) && IsRead(cmd) && 1 <= n <= DATA_MAX_BYTES
    ensures var s := SendBytes(core, OnWriteStart(before), [resid, cmd, n]);
            var started := OnReadStart(s.core, s.i2c);
            var atomic := AtomicRead(core.(lastStatus := SUCCESS), resid, cmd, n);
            && started.core == atomic.core && started.ret == atomic.ret
            && (started.ret != SUCCESS ==> started.i2c == s.i2c.(payload := started.i2c.payload))
            && (started.ret == SUCCESS ==>
                  var (after, data) := ReadBytes(started.i2c, k);
                  && (forall i :: 0 <= i < k ==> data[i] == if i < n then Some(atomic.data[i]) else None)
                  && StopVerdict(after) == ReadVerdict(n, k))
  {
    ReadStartIsAtomic(core, before, resid, cmd, n);
    var s := SendBytes(core, OnWriteStart(before), [resid, cmd, n]);
    var started := OnReadStart(s.core, s.i2c);
    if started.ret == SUCCESS {
      HeldBytesDelivered(started.i2c, AtomicRead(core.(lastStatus := SUCCESS), resid, cmd, n).data, k);
    }
  }

  /** A read of declared length zero runs through the buffer, past what was asked for. */
  lemma {:induction false} ZeroReadPhase(i2c: I2c, k: nat)
    requires i2c.state == ReadStart && i2c.sent == 0 == i2c.declared && k <= DATA_MAX_BYTES
    ensures ReadBytes(i2c, k).0 == i2c.(sent := k, state := if k == 0 then ReadStart else ReadData)
  {
    if k == 0 {
    } else {
      ZeroReadPhase(i2c, k - 1);
    }
  }

  lemma ReadBytesInRangeIff(i2c: I2c, k: nat)
    requires i2c.state == ReadStart && i2c.sent == 0 && i2c.declared <= DATA_MAX_BYTES
    ensures (forall j :: 0 <= j < k ==> InRange(ReadBytes(i2c, j).0)) <==> i2c.declared >= 1 || k <= DATA_MAX_BYTES
  {
    if i2c.declared == 0 && k > DATA_MAX_BYTES {
      ZeroReadPhase(i2c, DATA_MAX_BYTES);
      assert !InRange(ReadBytes(i2c, DATA_MAX_BYTES).0);
    } else {
      forall j | 0 <= j < k
        ensures InRange(ReadBytes(i2c, j).0)
      {
        if i2c.declared == 0 {
          ZeroReadPhase(i2c, j);
        } else {
          ReadPhase(i2c, j);
        }
      }
    }
  }

  /**
   * A read whose header and read start were accepted: `k` bytes come from inside the buffer exactly when the header
   * declared a nonzero length or `k` is at most the size of the buffer.
   */
  lemma ReadAccessesInRangeIff(core: Core, before: I2c, resid: byte, cmd: byte, n: byte, k: nat)
    requires IsRead(cmd) && n <= DATA_MAX_BYTES
    requires var s := SendBytes(core, OnWriteStart(before), [resid, cmd, n]);
             s.ret == SUCCESS && OnReadStart(s.core, s.i2c).ret == SUCCESS
    ensures var s := SendBytes(core, OnWriteStart(before), [resid, cmd, n]);
            var started := OnReadStart(s.core, s.i2c);
            (forall j :: 0 <= j < k ==> InRange(ReadBytes(started.i2c, j).0)) <==> n >= 1 || k <= DATA_MAX_BYTES
  {
    MachineRefinesParser(core, before, [resid, cmd, n]);
    var s := SendBytes(core, OnWriteStart(before), [resid, cmd, n]);
    ReadBytesInRangeIff(OnReadStart(s.core, s.i2c).i2c, k);
  }

  /** After an accepted read of nonzero length the data handler succeeds once more than asked for, and then fails. */
  lemma ReadDataSucceedsIff(i2c: I2c, k: nat)
    requires i2c.state == ReadStart && i2c.sent == 0 && 1 <= i2c.declared <= DATA_MAX_BYTES
    ensures OnReadData(ReadBytes(i2c, k).0).ret == if k <= i2c.declared then SUCCESS else ERROR
  {
    ReadPhase(i2c, k);
  }
}
