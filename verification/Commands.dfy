/** Host commands and their reference meaning: one atomic call each. */
module Commands {
  import opened ControlTypes
  import opened ResourceTables
  import opened ControlCore

  datatype Command =
    | Write(resid: byte, cmd: byte, payload: seq<byte>)
    | Read(resid: byte, cmd: byte, length: nat)

  /** One command carried out atomically, with the device before and after. */
  datatype Performed = Performed(before: Core, after: Core, ret: byte, data: seq<byte>)

  /** What a host API call returns. */
  datatype Reported = Reported(ret: byte, data: seq<byte>)

  function Perform(core: Core, c: Command): Performed {
    match c
    case Write(resid, cmd, payload) =>
      var w := AtomicWrite(core, resid, SetWrite(cmd), payload);
      Performed(core, w.core, w.ret, [])
    case Read(resid, cmd, length) =>
      var r := AtomicRead(core, resid, SetRead(cmd), length);
      Performed(core, r.core, r.ret, r.data)
  }

  function PerformAll(core: Core, cs: seq<Command>): (r: seq<Performed>)
    ensures |r| == |cs|
    decreases |cs|
  {
    if cs == [] then []
    else
      var p := Perform(core, cs[0]);
      [p] + PerformAll(p.after, cs[1..])
  }

  function Final(core: Core, cs: seq<Command>): Core
    decreases |cs|
  {
    if cs == [] then core else Final(Perform(core, cs[0]).after, cs[1..])
  }

  /** The call a command stands for, when its resource is registered. */
  function RequestFor(core: Core, c: Command): Request
    requires Known(core, c.resid)
  {
    var ifnum := Search(core.table, c.resid).value;
    match c
    case Write(resid, cmd, payload) => WriteTo(ifnum, resid, SetWrite(cmd), payload)
    case Read(resid, cmd, length) => ReadFrom(ifnum, resid, SetRead(cmd), length)
  }

  predicate Registered(core: Core, cs: seq<Command>) {
    forall c :: c in cs ==> c.resid != SPECIAL_RESID && Known(core, c.resid)
  }

  /** The calls `made` are the commands in order, one each, answered as reported. */
  ghost predicate MadeInOrder(core: Core, cs: seq<Command>, made: seq<Call>)
    requires Registered(core, cs)
  {
    && |made| == |cs|
    && forall i :: 0 <= i < |cs| ==>
         made[i] == Call(RequestFor(core, cs[i]), Reply(PerformAll(core, cs)[i].ret, PerformAll(core, cs)[i].data))
  }

  /** The trace of a session on registered resources: the earlier calls, and then those of the session. */
  ghost predicate CallsAre(core: Core, cs: seq<Command>, calls: seq<Call>)
    requires Registered(core, cs)
  {
    core.calls <= calls && MadeInOrder(core, cs, calls[|core.calls|..])
  }

  lemma PerformedCall(core: Core, c: Command)
    requires c.resid != SPECIAL_RESID && Known(core, c.resid)
    ensures var p := Perform(core, c);
            && p.after.table == core.table
            && p.after.calls == core.calls + [Call(RequestFor(core, c), Reply(p.ret, p.data))]
  {
  }

  lemma MadeAfterFirst(core: Core, cs: seq<Command>, rest: seq<Call>)
    requires Registered(core, cs) && cs != []
    requires var p := Perform(core, cs[0]);
             p.after.table == core.table && Registered(p.after, cs[1..]) && MadeInOrder(p.after, cs[1..], rest)
    ensures var p := Perform(core, cs[0]);
            MadeInOrder(core, cs, [Call(RequestFor(core, cs[0]), Reply(p.ret, p.data))] + rest)
  {
  }

  lemma RestRegistered(core: Core, cs: seq<Command>)
    requires Registered(core, cs) && cs != []
    ensures cs[0].resid != SPECIAL_RESID && Known(core, cs[0].resid)
    ensures Registered(Perform(core, cs[0]).after, cs[1..])
  {
    assert cs[0] in cs;
    PerformedCall(core, cs[0]);
  }

  lemma SuffixAfterOne(earlier: seq<Call>, one: Call, all: seq<Call>)
    requires earlier + [one] <= all
    ensures earlier <= all && all[|earlier|..] == [one] + all[|earlier| + 1..]
  {
    assert all[|earlier|] == (earlier + [one])[|earlier|];
  }

  lemma {:induction false} PerformedCalls(core: Core, cs: seq<Command>)
    requires Registered(core, cs)
    ensures CallsAre(core, cs, Final(core, cs).calls)
    decreases |cs|
  {
    if cs == [] {
    } else {
      var p := Perform(core, cs[0]);
      RestRegistered(core, cs);
      PerformedCall(core, cs[0]);
      PerformedCalls(p.after, cs[1..]);
      var calls, one := Final(p.after, cs[1..]).calls, Call(RequestFor(core, cs[0]), Reply(p.ret, p.data));
      SuffixAfterOne(core.calls, one, calls);
      MadeAfterFirst(core, cs, calls[|core.calls| + 1..]);
    }
  }

  lemma {:induction false} PerformedOnSameTable(core: Core, cs: seq<Command>)
    ensures forall i :: 0 <= i < |cs| ==> PerformAll(core, cs)[i].before.table == core.table
    decreases |cs|
  {
    if cs == [] {
    } else {
      PerformedOnSameTable(Perform(core, cs[0]).after, cs[1..]);
    }
  }
}
