/** What a whole SPI transaction means, for every interleaving of supplied and requested bytes. */
module SpiTransactions {
  import opened ControlTypes
  import opened ResourceTables
  import opened ControlCore
  import opened SpiMachine

  datatype Event = Supplied(datum: byte) | Required

  datatype Trace = Trace(core: Core, spi: Spi, answers: seq<byte>)

  function React(t: Trace, e: Event): Trace {
    match e
    case Supplied(datum) => t.(spi := OnSupplied(t.core, t.spi, datum).spi)
    case Required =>
      var p := OnRequired(t.core, t.spi);
      Trace(p.core, p.spi, t.answers + [p.data])
  }

  /** The events between two transaction ends. */
  function Run(core: Core, spi: Spi, events: seq<Event>): Trace {
    if events == [] then Trace(core, spi, [])
    else React(Run(core, spi, events[..|events| - 1]), events[|events| - 1])
  }

  function Transaction(core: Core, spi: Spi, events: seq<Event>): End {
    var t := Run(core, spi, events);
    OnEnd(t.core, t.spi)
  }

  function SuppliedBytes(events: seq<Event>): seq<byte> {
    if events == [] then []
    else
      var e := events[|events| - 1];
      SuppliedBytes(events[..|events| - 1]) + if e.Supplied? then [e.datum] else []
  }

  function Polls(events: seq<Event>): nat {
    if events == [] then 0
    else Polls(events[..|events| - 1]) + if events[|events| - 1].Required? then 1 else 0
  }

  /** Some byte is requested after the third byte, the length, has been supplied. */
  predicate PolledAfterHeader(events: seq<Event>) {
    events != [] &&
    var init := events[..|events| - 1];
    (PolledAfterHeader(init) || (events[|events| - 1].Required? && |SuppliedBytes(init)| >= 3))
  }

  // ----- Writes -----

  /** The bytes do not begin a read command to a known resource. */
  predicate NoRead(table: Table, bytes: seq<byte>) {
    |bytes| >= 2 && Search(table, bytes[0]).Some? ==> !IsRead(bytes[1])
  }

  /** The record after `bytes`, read off them at once. */
  function Collected(table: Table, bytes: seq<byte>): Spi {
    if bytes == [] then INITIAL
    else match Search(table, bytes[0])
      case None => INITIAL.(state := Error)
      case Some(ifnum) =>
        var named := INITIAL.(resid := bytes[0], ifnum := ifnum);
        if |bytes| == 1 then named.(state := ResRecvd)
        else if |bytes| == 2 then named.(state := WriteCmdRecvd, cmd := bytes[1])
        else
          var k, kept := |bytes| - 3, Min(|bytes| - 3, Capacity(bytes[2]));
          named.(cmd := bytes[1], declared := bytes[2], sent := k,
                 state := if k <= Capacity(bytes[2]) then WriteData else PayloadError,
                 payload := Overlay(INITIAL.payload, bytes[3..3 + kept]))
  }

  /** A payload byte that is stored. */
  lemma CollectStored(core: Core, bytes: seq<byte>, datum: byte)
    requires |bytes| >= 3 && Known(core, bytes[0]) && |bytes| - 3 < Capacity(bytes[2])
    ensures OnSupplied(core, Collected(core.table, bytes), datum).spi == Collected(core.table, bytes + [datum])
  {
    var more, k := bytes + [datum], |bytes| - 3;
    assert more[0] == bytes[0] && more[1] == bytes[1] && more[2] == bytes[2];
    assert bytes[3..3 + k] + [datum] == more[3..3 + k + 1];
    OverlayOneMore(INITIAL.payload, bytes[3..3 + k], datum);
  }

  /** A payload byte too many. */
  lemma CollectSurplus(core: Core, bytes: seq<byte>, datum: byte)
    requires |bytes| >= 3 && Known(core, bytes[0]) && |bytes| - 3 >= Capacity(bytes[2])
    ensures OnSupplied(core, Collected(core.table, bytes), datum).spi == Collected(core.table, bytes + [datum])
  {
    var more, room := bytes + [datum], Capacity(bytes[2]);
    assert more[0] == bytes[0] && more[1] == bytes[1] && more[2] == bytes[2];
    assert bytes[3..3 + room] == more[3..3 + room];
  }

  lemma CollectOne(core: Core, bytes: seq<byte>, datum: byte)
    requires NoRead(core.table, bytes + [datum])
    ensures OnSupplied(core, Collected(core.table, bytes), datum).spi == Collected(core.table, bytes + [datum])
  {
    if bytes == [] {
    } else if !Known(core, bytes[0]) {
      assert (bytes + [datum])[0] == bytes[0];
    } else if |bytes| < 3 {
      assert (bytes + [datum])[0] == bytes[0];
      assert Overlay(INITIAL.payload, []) == INITIAL.payload;
    } else if |bytes| - 3 < Capacity(bytes[2]) {
      CollectStored(core, bytes, datum);
    } else {
      CollectSurplus(core, bytes, datum);
    }
  }

  lemma CollectedAnswersZero(core: Core, bytes: seq<byte>)
    requires NoRead(core.table, bytes)
    ensures OnRequired(core, Collected(core.table, bytes)) == Poll(core, Collected(core.table, bytes), SUCCESS, 0)
  {
  }

  lemma NoReadOfPrefix(table: Table, bytes: seq<byte>, more: seq<byte>)
    requires NoRead(table, more) && bytes <= more
    ensures NoRead(table, bytes)
  {
  }

  /** One event of a transaction that begins no read. */
  lemma WriteStep(core: Core, bytes: seq<byte>, n: nat, e: Event)
    requires NoRead(core.table, bytes + if e.Supplied? then [e.datum] else [])
    ensures var more := bytes + if e.Supplied? then [e.datum] else [];
            React(Trace(core, Collected(core.table, bytes), Zeros(n)), e)
            == Trace(core, Collected(core.table, more), Zeros(n + if e.Required? then 1 else 0))
  {
    if e.Supplied? {
      CollectOne(core, bytes, e.datum);
    } else {
      assert bytes + [] == bytes;
      CollectedAnswersZero(core, bytes);
      assert Zeros(n) + [0] == Zeros(n + 1);
    }
  }

  lemma {:induction false} WritePhase(core: Core, events: seq<Event>)
    requires NoRead(core.table, SuppliedBytes(events))
    ensures Run(core, INITIAL, events)
            == Trace(core, Collected(core.table, SuppliedBytes(events)), Zeros(Polls(events)))
    decreases |events|
  {
    if events == [] {
    } else {
      var init := events[..|events| - 1];
      NoReadOfPrefix(core.table, SuppliedBytes(init), SuppliedBytes(events));
      WritePhase(core, init);
      WriteStep(core, SuppliedBytes(init), Polls(init), events[|events| - 1]);
    }
  }

  /**
   * Main result: started from idle, whatever the interleaving, a transaction that does not begin a read is one
   * atomic write if its payload has exactly the declared length and fits, and otherwise changes nothing at all; the
   * end reports an error for a short payload only. Either way the machine is idle again.
   */
  lemma WriteIsAllOrNothing(core: Core, events: seq<Event>)
    requires NoRead(core.table, SuppliedBytes(events))
    ensures var bytes := SuppliedBytes(events);
            var e := Transaction(core, INITIAL, events);
            && e.spi == INITIAL
            && if |bytes| >= 3 && Known(core, bytes[0]) && |bytes| - 3 == bytes[2] <= DATA_MAX_BYTES then
                 Written(e.core, e.ret) == AtomicWrite(core, bytes[0], bytes[1], bytes[3..])
               else
                 && e.core == core
                 && e.ret == if |bytes| >= 3 && Known(core, bytes[0]) && |bytes| - 3 < bytes[2]
                                && |bytes| - 3 <= DATA_MAX_BYTES then ERROR else SUCCESS
  {
    WritePhase(core, events);
    var bytes := SuppliedBytes(events);
    if |bytes| >= 3 && |bytes| - 3 == bytes[2] <= DATA_MAX_BYTES {
      assert Overlay(INITIAL.payload, bytes[3..])[..bytes[2]] == bytes[3..];
      assert bytes[3..3 + bytes[2]] == bytes[3..];
    }
  }

  /** The same, counting task calls: called exactly when the payload has the declared length and fits. */
  lemma WriteCalledIff(core: Core, events: seq<Event>)
    requires NoRead(core.table, SuppliedBytes(events))
    ensures var bytes := SuppliedBytes(events);
            var calls := Transaction(core, INITIAL, events).core.calls;
            && (calls != core.calls <==>
                  && |bytes| >= 3 && Known(core, bytes[0]) && bytes[0] != SPECIAL_RESID
                  && |bytes| - 3 == bytes[2] <= DATA_MAX_BYTES)
            && (calls != core.calls ==>
                  var request := WriteTo(Search(core.table, bytes[0]).value, bytes[0], bytes[1], bytes[3..]);
                  calls == core.calls + [Call(request, Answer(core, request))])
  {
    WriteIsAllOrNothing(core, events);
  }

  /**
   * The code for each supplied byte of such a transaction: an error exactly for an unknown resource, and for the first
   * byte past the declared length or the buffer.
   */
  lemma SuppliedCode(core: Core, events: seq<Event>, datum: byte)
    requires NoRead(core.table, SuppliedBytes(events) + [datum])
    ensures var bytes, t := SuppliedBytes(events), Run(core, INITIAL, events);
            OnSupplied(t.core, t.spi, datum).ret
            == if || (bytes == [] && !Known(core, datum))
                  || (|bytes| >= 3 && Known(core, bytes[0]) && |bytes| - 3 == Capacity(bytes[2]))
               then ERROR else SUCCESS
  {
    var bytes := SuppliedBytes(events);
    NoReadOfPrefix(core.table, bytes, bytes + [datum]);
    WritePhase(core, events);
    assert bytes != [] ==> (bytes + [datum])[0] == bytes[0];
  }

  // ----- Reads -----

  /** A read command to a known resource. */
  predicate ReadCommand(core: Core, resid: byte, cmd: byte) {
    Known(core, resid) && IsRead(cmd)
  }

  predicate ReadHeader(core: Core, resid: byte, cmd: byte, n: byte) {
    ReadCommand(core, resid, cmd) && n <= DATA_MAX_BYTES
  }

  function Named(core: Core, resid: byte, cmd: byte, n: byte): Spi
    requires Known(core, resid)
  {
    INITIAL.(resid := resid, ifnum := Search(core.table, resid).value, cmd := cmd, declared := n)
  }

  /** The machine after `bytes`; `polled` says whether one has been requested after the length. */
  function ReadStateAfter(core: Core, bytes: seq<byte>, polled: bool): (Core, Spi)
    requires |bytes| >= 3 ==> ReadCommand(core, bytes[0], bytes[1])
  {
    if |bytes| < 3 then
      if |bytes| == 2 && ReadCommand(core, bytes[0], bytes[1]) then
        (core, Named(core, bytes[0], bytes[1], 0).(state := ReadCmdRecvd))
      else
        (core, Collected(core.table, bytes))
    else if !polled then
      (core, Named(core, bytes[0], bytes[1], bytes[2]).(state := ReadDataStart))
    else
      var r := AtomicRead(core, bytes[0], bytes[1], Capacity(bytes[2]));
      var spi := Named(core, bytes[0], bytes[1], bytes[2]);
      (r.core, spi.(state := ReadDataWait, payload := Overlay(INITIAL.payload, r.data)))
  }

  predicate IsPrefixOfRead(bytes: seq<byte>, resid: byte, cmd: byte, n: byte, pad: nat) {
    |bytes| <= 3 + pad && bytes == ([resid, cmd, n] + Zeros(pad))[..|bytes|]
  }

  lemma ReadSupplied(core: Core, bytes: seq<byte>, polled: bool, datum: byte, resid: byte, cmd: byte, n: byte, pad: nat)
    requires ReadCommand(core, resid, cmd) && IsPrefixOfRead(bytes + [datum], resid, cmd, n, pad)
    requires polled ==> |bytes| >= 3
    ensures |bytes| >= 3 ==> ReadCommand(core, bytes[0], bytes[1])
    ensures var (c, s) := ReadStateAfter(core, bytes, polled);
            && (c, OnSupplied(c, s, datum).spi) == ReadStateAfter(core, bytes + [datum], polled)
            && OnSupplied(c, s, datum).ret == SUCCESS
  {
    var more, k := bytes + [datum], |bytes|;
    assert forall i :: 0 <= i <= k ==> more[i] == ([resid, cmd, n] + Zeros(pad))[i];
    if k >= 3 {
      assert more[0] == bytes[0] && more[1] == bytes[1] && more[2] == bytes[2];
      assert datum == more[k] == Zeros(pad)[k - 3];
    }
  }

  lemma ReadRequired(core: Core, bytes: seq<byte>, polled: bool)
    requires |bytes| >= 3 ==> ReadCommand(core, bytes[0], bytes[1])
    ensures var (c, s) := ReadStateAfter(core, bytes, polled);
            var p := OnRequired(c, s);
            && (p.core, p.spi) == ReadStateAfter(core, bytes, polled || |bytes| >= 3) && p.data == 0
            && p.ret == if |bytes| >= 3 && !polled then AtomicRead(core, bytes[0], bytes[1], Capacity(bytes[2])).ret
                        else SUCCESS
  {
    if |bytes| >= 3 && !polled {
      var k := Capacity(bytes[2]);
      assert Zeros(DATA_MAX_BYTES)[..k] == Zeros(k);
    }
  }

  lemma PrefixOfPrefix(bytes: seq<byte>, more: seq<byte>, resid: byte, cmd: byte, n: byte, pad: nat)
    requires bytes <= more && IsPrefixOfRead(more, resid, cmd, n, pad)
    ensures IsPrefixOfRead(bytes, resid, cmd, n, pad)
  {
  }

  lemma {:induction false} PolledNeedsHeader(events: seq<Event>)
    ensures PolledAfterHeader(events) ==> |SuppliedBytes(events)| >= 3
    decreases |events|
  {
    if events == [] {
    } else {
      PolledNeedsHeader(events[..|events| - 1]);
    }
  }

  lemma {:induction false} ReadPhase(core: Core, events: seq<Event>, resid: byte, cmd: byte, n: byte, pad: nat)
    requires ReadCommand(core, resid, cmd)
    requires IsPrefixOfRead(SuppliedBytes(events), resid, cmd, n, pad)
    ensures var t := Run(core, INITIAL, events);
            && (t.core, t.spi) == ReadStateAfter(core, SuppliedBytes(events), PolledAfterHeader(events))
            && t.answers == Zeros(Polls(events))
    decreases |events|
  {
    if events == [] {
    } else {
      var init, e := events[..|events| - 1], events[|events| - 1];
      var bytes, polled := SuppliedBytes(init), PolledAfterHeader(init);
      PrefixOfPrefix(bytes, SuppliedBytes(events), resid, cmd, n, pad);
      PolledNeedsHeader(init);
      ReadPhase(core, init, resid, cmd, n, pad);
      if e.Supplied? {
        ReadSupplied(core, bytes, polled, e.datum, resid, cmd, n, pad);
      } else {
        ReadRequired(core, bytes, polled);
      }
    }
  }

  function Holding(core: Core, resid: byte, cmd: byte, n: byte): Spi
    requires ReadHeader(core, resid, cmd, n)
  {
    Named(core, resid, cmd, n).(
      state := ReadData, payload := Overlay(INITIAL.payload, AtomicRead(core, resid, cmd, n).data))
  }

  /**
   * The code for a request in the header transaction of a read: the read's own for the first one after the length, and
   * success for every other.
   */
  lemma RequestCode(core: Core, events: seq<Event>, resid: byte, cmd: byte, n: byte, pad: nat)
    requires ReadHeader(core, resid, cmd, n)
    requires IsPrefixOfRead(SuppliedBytes(events), resid, cmd, n, pad)
    ensures var t := Run(core, INITIAL, events);
            OnRequired(t.core, t.spi).ret
            == if |SuppliedBytes(events)| >= 3 && !PolledAfterHeader(events) then AtomicRead(core, resid, cmd, n).ret
               else SUCCESS
  {
    var bytes := SuppliedBytes(events);
    ReadPhase(core, events, resid, cmd, n, pad);
    ReadRequired(core, bytes, PolledAfterHeader(events));
    assert |bytes| >= 3 ==> bytes[0] == resid && bytes[1] == cmd && bytes[2] == n;
  }

  /** A zero-padded read header runs the read once, exactly when a byte is requested after the length. */
  lemma HeaderTransactionReads(core: Core, events: seq<Event>, resid: byte, cmd: byte, n: byte, pad: nat)
    requires ReadHeader(core, resid, cmd, n)
    requires SuppliedBytes(events) == [resid, cmd, n] + Zeros(pad)
    ensures var e := Transaction(core, INITIAL, events);
            && e.ret == SUCCESS
            && if PolledAfterHeader(events) then
                 e.core == AtomicRead(core, resid, cmd, n).core && e.spi == Holding(core, resid, cmd, n)
               else
                 e.core == core && e.spi == INITIAL
  {
    var whole := [resid, cmd, n] + Zeros(pad);
    assert whole[..|whole|] == whole && whole[0] == resid && whole[1] == cmd && whole[2] == n;
    ReadPhase(core, events, resid, cmd, n, pad);
    assert Capacity(n) == n;
  }

  /** The first `n` answers of a machine that holds a read's bytes: those, and then zeros. */
  function Held(spi: Spi, n: nat): (r: seq<byte>)
    ensures |r| == n
    ensures forall k :: 0 <= k < n ==> r[k] == if k < Capacity(spi.declared) then spi.payload[k] else 0
  {
    seq(n, k requires 0 <= k < n => if k < Capacity(spi.declared) then spi.payload[k] else 0)
  }

  /** One event of a data transaction. */
  lemma DataStep(core: Core, spi: Spi, n: nat, e: Event)
    requires spi.state == ReadData && spi.sent == 0
    ensures var after := n + if e.Required? then 1 else 0;
            React(Trace(core, spi.(sent := Min(n, Capacity(spi.declared))), Held(spi, n)), e)
            == Trace(core, spi.(sent := Min(after, Capacity(spi.declared))), Held(spi, after))
  {
    assert Held(spi, n + 1) == Held(spi, n) + [Held(spi, n + 1)[n]];
  }

  lemma {:induction false} DataPhase(core: Core, spi: Spi, events: seq<Event>)
    requires spi.state == ReadData && spi.sent == 0
    ensures var n := Polls(events);
            Run(core, spi, events) == Trace(core, spi.(sent := Min(n, Capacity(spi.declared))), Held(spi, n))
    decreases |events|
  {
    if events == [] {
      assert Held(spi, 0) == [];
    } else {
      var init := events[..|events| - 1];
      DataPhase(core, spi, init);
      DataStep(core, spi, Polls(init), events[|events| - 1]);
    }
  }

  /**
   * The following transaction: request number `k` is answered with payload byte `k` and then with zeros,
   * whatever the master clocks in and however the events interleave.
   */
  lemma DataTransactionAnswers(core: Core, spi: Spi, events: seq<Event>)
    requires spi.state == ReadData && spi.sent == 0
    ensures var t := Run(core, spi, events);
            && t.core == core && t.spi == spi.(sent := Min(Polls(events), Capacity(spi.declared)))
            && |t.answers| == Polls(events)
            && (forall k :: 0 <= k < |t.answers| ==>
                  t.answers[k] == if k < Capacity(spi.declared) then spi.payload[k] else 0)
    ensures Transaction(core, spi, events) == End(core, INITIAL, SUCCESS)
  {
    DataPhase(core, spi, events);
  }

  /** No handler reports an error in a data transaction, whatever is clocked in and however much is asked for. */
  lemma DataCodes(core: Core, spi: Spi, events: seq<Event>, datum: byte)
    requires spi.state == ReadData && spi.sent == 0
    ensures var t := Run(core, spi, events);
            OnSupplied(t.core, t.spi, datum).ret == OnRequired(t.core, t.spi).ret == SUCCESS
  {
    DataPhase(core, spi, events);
  }

  /** A nonzero byte while an answer waits restarts the machine: the rest is read as if it had been idle. */
  lemma {:induction false} WaitingRestarts(core: Core, spi: Spi, events: seq<Event>)
    requires spi.state == ReadDataWait
    requires SuppliedBytes(events) == [] || SuppliedBytes(events)[0] != 0
    ensures var t, idle := Run(core, spi, events), Run(core, INITIAL, events);
            && t.core == idle.core && t.answers == idle.answers
            && (if SuppliedBytes(events) == [] then t.spi == spi && idle.spi == INITIAL else t.spi == idle.spi)
    decreases |events|
  {
    if events == [] {
    } else {
      var init := events[..|events| - 1];
      assert SuppliedBytes(init) <= SuppliedBytes(events);
      WaitingRestarts(core, spi, init);
    }
  }

  lemma {:induction false} ReadDataPersists(core: Core, spi: Spi, events: seq<Event>)
    requires spi.state == ReadData
    ensures Run(core, spi, events).spi.state == ReadData
    decreases |events|
  {
    if events == [] {
    } else {
      ReadDataPersists(core, spi, events[..|events| - 1]);
    }
  }

  // ----- Accesses to the payload buffer -----

  /** Every request for a byte finds the machine in range. */
  predicate AnswersInRange(core: Core, spi: Spi, events: seq<Event>)
    decreases |events|
  {
    events == [] ||
    var init := events[..|events| - 1];
    AnswersInRange(core, spi, init) && (events[|events| - 1].Required? ==> InRange(Run(core, spi, init).spi))
  }

  lemma {:induction false} WriteInRange(core: Core, events: seq<Event>)
    requires NoRead(core.table, SuppliedBytes(events))
    ensures AnswersInRange(core, INITIAL, events)
    decreases |events|
  {
    if events == [] {
    } else {
      var init := events[..|events| - 1];
      NoReadOfPrefix(core.table, SuppliedBytes(init), SuppliedBytes(events));
      WritePhase(core, init);
      WriteInRange(core, init);
    }
  }

  /** A padded read header stays in the buffer exactly when it fits, or when no byte is requested after the length. */
  lemma {:induction false} HeaderInRangeIff(core: Core, events: seq<Event>, resid: byte, cmd: byte, n: byte, pad: nat)
    requires ReadCommand(core, resid, cmd)
    requires IsPrefixOfRead(SuppliedBytes(events), resid, cmd, n, pad)
    ensures AnswersInRange(core, INITIAL, events) <==> n <= DATA_MAX_BYTES || !PolledAfterHeader(events)
    decreases |events|
  {
    if events == [] {
    } else {
      var init := events[..|events| - 1];
      PrefixOfPrefix(SuppliedBytes(init), SuppliedBytes(events), resid, cmd, n, pad);
      ReadPhase(core, init, resid, cmd, n, pad);
      HeaderInRangeIff(core, init, resid, cmd, n, pad);
      assert |SuppliedBytes(init)| >= 3 ==> SuppliedBytes(init)[2] == n;
    }
  }

  lemma {:induction false} DataInRange(core: Core, spi: Spi, events: seq<Event>)
    requires spi.state == ReadData
    ensures AnswersInRange(core, spi, events)
    decreases |events|
  {
    if events == [] {
    } else {
      ReadDataPersists(core, spi, events[..|events| - 1]);
      DataInRange(core, spi, events[..|events| - 1]);
    }
  }

  lemma {:induction false} PrefixInRange(core: Core, spi: Spi, events: seq<Event>, prefix: seq<Event>)
    requires AnswersInRange(core, spi, events) && prefix <= events
    ensures AnswersInRange(core, spi, prefix)
    decreases |events|
  {
    if prefix == events {
    } else {
      PrefixInRange(core, spi, events[..|events| - 1], prefix);
    }
  }

  // ----- Every run -----

  function RunAll(core: Core, spi: Spi, transactions: seq<seq<Event>>): (Core, Spi) {
    if transactions == [] then (core, spi)
    else
      var (c, s) := RunAll(core, spi, transactions[..|transactions| - 1]);
      var e := Transaction(c, s, transactions[|transactions| - 1]);
      (e.core, e.spi)
  }

  /**
   * Resynchronisation from any record at all, for all bytes: the boundary after a transaction is idle with every
   * field zero, or the next one is.
   */
  lemma Resynchronises(core: Core, spi: Spi, first: seq<Event>, second: seq<Event>)
    ensures var e := Transaction(core, spi, first);
            e.spi == INITIAL || (e.spi.state == ReadData && Transaction(e.core, e.spi, second).spi == INITIAL)
  {
    var e := Transaction(core, spi, first);
    if e.spi.state == ReadData {
      ReadDataPersists(e.core, e.spi, second);
    }
  }

  lemma {:induction false} RunKeepsTable(core: Core, spi: Spi, events: seq<Event>)
    ensures Run(core, spi, events).core.table == core.table
    decreases |events|
  {
    if events == [] {
    } else {
      RunKeepsTable(core, spi, events[..|events| - 1]);
    }
  }

  predicate CounterInv(spi: Spi) {
    match spi.state
    case WriteData | ReadData => spi.sent <= Capacity(spi.declared)
    case PayloadError => true
    case _ => spi.sent == 0
  }

  lemma {:induction false} RunKeepsCounter(core: Core, spi: Spi, events: seq<Event>)
    requires CounterInv(spi)
    ensures CounterInv(Run(core, spi, events).spi)
    decreases |events|
  {
    if events == [] {
    } else {
      RunKeepsCounter(core, spi, events[..|events| - 1]);
    }
  }

  /**
   * In every run the count is zero before the data phases and within the declared length and the buffer in them,
   * at every point of the transaction in progress.
   */
  lemma {:induction false} CountersStayInBounds(core: Core, transactions: seq<seq<Event>>, current: seq<Event>)
    ensures var (c, s) := RunAll(core, INITIAL, transactions);
            CounterInv(Run(c, s, current).spi)
    decreases |transactions|
  {
    var (c, s) := RunAll(core, INITIAL, transactions);
    if transactions == [] {
    } else {
      CountersStayInBounds(core, transactions[..|transactions| - 1], transactions[|transactions| - 1]);
    }
    RunKeepsCounter(c, s, current);
  }
}
