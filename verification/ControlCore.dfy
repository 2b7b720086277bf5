/** Routing a command to the task that registered its resource, and the status register. */
module ControlCore {
  import opened ControlTypes
  import opened ResourceTables

  datatype Request =
    | WriteTo(ifnum: byte, resid: byte, cmd: byte, payload: seq<byte>)
    | ReadFrom(ifnum: byte, resid: byte, cmd: byte, length: nat)

  datatype Reply = Reply(ret: byte, data: seq<byte>)

  datatype Call = Call(request: Request, reply: Reply)

  /**
   * The tasks behind the interfaces: an arbitrary environment. It answers from the whole history
   * of calls, and no two calls of a run have the same history, so every sequence of answers
   * is the behaviour of some environment.
   */
  type Tasks = (seq<Call>, Request) -> Reply

  /** What all transports share: the registered resources, the status register and the trace of task calls. */
  datatype Core = Core(tasks: Tasks, table: Table, lastStatus: byte, calls: seq<Call>)

  datatype Written = Written(core: Core, ret: byte)

  /** `data` is the payload buffer after the call. */
  datatype ReadBack = ReadBack(core: Core, ret: byte, data: seq<byte>)

  function Fit(data: seq<byte>, n: nat): (r: seq<byte>)
    ensures |r| == n
  {
    if |data| >= n then data[..n] else data + Zeros(n - |data|)
  }

  /** A task answers a write with a code, and a read with a code and as many bytes as were asked for. */
  function Answer(core: Core, request: Request): (r: Reply) {
    var reply := core.tasks(core.calls, request);
    Reply(reply.ret, if request.ReadFrom? then Fit(reply.data, request.length) else [])
  }

  function CallTask(core: Core, request: Request): Core {
    core.(calls := core.calls + [Call(request, Answer(core, request))])
  }

  function RunWrite(core: Core, ifnum: byte, resid: byte, cmd: byte, payload: seq<byte>): Written {
    if resid == SPECIAL_RESID then
      Written(core.(lastStatus := BAD_COMMAND), BAD_COMMAND)
    else
      var request := WriteTo(ifnum, resid, cmd, payload);
      var ret := Answer(core, request).ret;
      Written(CallTask(core, request).(lastStatus := ret), ret)
  }

  function SpecialRead(lastStatus: byte, cmd: byte, buffer: seq<byte>): (r: (byte, seq<byte>))
    ensures |r.1| == |buffer|
  {
    if cmd == GET_VERSION then
      if |buffer| != 1 then (BAD_COMMAND, buffer) else (SUCCESS, [CONTROL_VERSION])
    else if cmd == GET_LAST_COMMAND_STATUS then
      if |buffer| != 1 then (BAD_COMMAND, buffer) else (SUCCESS, [lastStatus])
    else
      (BAD_COMMAND, buffer)
  }

  function RunRead(core: Core, ifnum: byte, resid: byte, cmd: byte, buffer: seq<byte>): (r: ReadBack)
    ensures |r.data| == |buffer|
  {
    if resid == SPECIAL_RESID then
      var (ret, data) := SpecialRead(core.lastStatus, cmd, buffer);
      ReadBack(core, ret, data)
    else
      var request := ReadFrom(ifnum, resid, cmd, |buffer|);
      var reply := Answer(core, request);
      ReadBack(CallTask(core, request), reply.ret, reply.data)
  }

  predicate Known(core: Core, resid: byte) {
    Search(core.table, resid).Some?
  }

  // ----- The atomic operations that every transport is compared with -----

  function AtomicWrite(core: Core, resid: byte, cmd: byte, payload: seq<byte>): Written {
    match Search(core.table, resid)
    case None => Written(core, BAD_COMMAND)
    case Some(ifnum) => RunWrite(core, ifnum, resid, cmd, payload)
  }

  function AtomicRead(core: Core, resid: byte, cmd: byte, length: nat): (r: ReadBack)
    ensures |r.data| == length
  {
    match Search(core.table, resid)
    case None => ReadBack(core, BAD_COMMAND, Zeros(length))
    case Some(ifnum) => RunRead(core, ifnum, resid, cmd, Zeros(length))
  }

  /** The reply is what the tasks gave after `before`: the code, and a read's bytes, zeros where they fall short. */
  predicate AnsweredBy(tasks: Tasks, before: seq<Call>, call: Call) {
    var reply, request := tasks(before, call.request), call.request;
    && call.reply.ret == reply.ret
    && |call.reply.data| == (if request.ReadFrom? then request.length else 0)
    && forall i :: 0 <= i < |call.reply.data| ==> call.reply.data[i] == if i < |reply.data| then reply.data[i] else 0
  }

  lemma AnswerIsTheTasks(core: Core, request: Request)
    ensures AnsweredBy(core.tasks, core.calls, Call(request, Answer(core, request)))
  {
  }

  /** A read reaches the task that registered the resource, and returns that task's code and bytes. */
  lemma ReadReturnsTheTasksAnswer(core: Core, resid: byte, cmd: byte, n: nat)
    requires Known(core, resid) && resid != SPECIAL_RESID
    ensures var request := ReadFrom(Search(core.table, resid).value, resid, cmd, n);
            var reply, r := core.tasks(core.calls, request), AtomicRead(core, resid, cmd, n);
            && AnsweredBy(core.tasks, core.calls, Call(request, Reply(r.ret, r.data)))
            && (|reply.data| == n ==>
                  r == ReadBack(core.(calls := core.calls + [Call(request, reply)]), reply.ret, reply.data))
  {
    var request := ReadFrom(Search(core.table, resid).value, resid, cmd, n);
    var reply := core.tasks(core.calls, request);
    assert |reply.data| == n ==> reply.data[..n] == reply.data;
    AnswerIsTheTasks(core, request);
  }

  /** A write reaches the task that registered the resource; its code is returned, recorded and kept as the status. */
  lemma WriteReturnsTheTasksCode(core: Core, resid: byte, cmd: byte, payload: seq<byte>)
    requires Known(core, resid) && resid != SPECIAL_RESID
    ensures var request := WriteTo(Search(core.table, resid).value, resid, cmd, payload);
            var ret := core.tasks(core.calls, request).ret;
            AtomicWrite(core, resid, cmd, payload)
            == Written(core.(calls := core.calls + [Call(request, Reply(ret, []))], lastStatus := ret), ret)
  {
  }

  predicate Ready(core: Core) {
    core.table.reserved == Some(SPECIAL_RESID)
  }

  /** `bytes` after those from `offset` on have been replaced by `data`. */
  function Splice(bytes: seq<byte>, offset: nat, data: seq<byte>): (r: seq<byte>)
    requires offset + |data| <= |bytes|
    ensures |r| == |bytes|
  {
    bytes[..offset] + data + bytes[offset + |data|..]
  }

  class Control {
    const tasks: Tasks
    const table: ResourceTable
    var lastStatus: byte
    var calls: seq<Call>

    ghost predicate Valid() {
      table.Valid()
    }

    ghost function View(): Core
      requires Valid()
      reads this, table, table.entries
    {
      Core(tasks, table.View(), lastStatus, calls)
    }

    constructor (tasks: Tasks)
      ensures Valid() && fresh(table) && fresh(table.entries)
      ensures View() == Core(tasks, Table(Zeros(RESOURCE_TABLE_MAX), None), 0, [])
    {
      this.tasks := tasks;
      table := new ResourceTable();
      lastStatus, calls := 0, [];
    }

    method Init() returns (ret: byte)
      requires Valid()
      modifies table, table.entries
      ensures ret == SUCCESS
      ensures View() == old(View()).(table := Initialised(SPECIAL_RESID))
    {
      table.Init(SPECIAL_RESID);
      ret := SUCCESS;
    }

    /** `lists[j]` is what interface `j` answers when asked for its resource IDs. */
    method RegisterResources(lists: seq<seq<byte>>) returns (ret: byte)
      requires Valid()
      modifies table.entries
      ensures (View().table, ret) == Register(old(View().table), lists)
      ensures View() == old(View()).(table := View().table)
    {
      ret := SUCCESS;
      var j := 0;
      while j < |lists|
        invariant 0 <= j <= |lists|
        invariant (table.View(), ret) == RegisterUpTo(old(table.View()), lists, j)
      {
        var code := table.AddResources(lists[j], j % 256);
        if code != 0 {
          ret := REGISTRATION_FAILED;
        }
        j := j + 1;
      }
    }

    method WriteCommand(ifnum: byte, resid: byte, cmd: byte, payload: array<byte>, offset: nat, length: nat)
      returns (ret: byte)
      requires Valid() && offset + length <= payload.Length
      modifies this`lastStatus, this`calls
      ensures Written(View(), ret) == RunWrite(old(View()), ifnum, resid, cmd, payload[offset..offset + length])
    {
      if resid == SPECIAL_RESID {
        ret := BAD_COMMAND;
      } else {
        var request := WriteTo(ifnum, resid, cmd, payload[offset..offset + length]);
        var reply := tasks(calls, request);
        calls := calls + [Call(request, Reply(reply.ret, []))];
        ret := reply.ret;
      }
      lastStatus := ret;
    }

    method SpecialReadCommand(cmd: byte, payload: array<byte>, offset: nat, length: nat) returns (ret: byte)
      requires Valid() && offset + length <= payload.Length
      requires payload != table.entries
      modifies payload
      ensures var (code, data) := SpecialRead(lastStatus, cmd, old(payload[offset..offset + length]));
              ret == code && payload[..] == Splice(old(payload[..]), offset, data)
    {
      ret := BAD_COMMAND;
      if cmd == GET_VERSION {
        if length == 1 {
          payload[offset] := CONTROL_VERSION;
          ret := SUCCESS;
        }
      } else if cmd == GET_LAST_COMMAND_STATUS {
        if length == 1 {
          payload[offset] := lastStatus;
          ret := SUCCESS;
        }
      }
    }

    method ReadCommand(ifnum: byte, resid: byte, cmd: byte, payload: array<byte>, offset: nat, length: nat)
      returns (ret: byte)
      requires Valid() && offset + length <= payload.Length
      requires payload != table.entries
      modifies this`calls, payload
      ensures var r := RunRead(old(View()), ifnum, resid, cmd, old(payload[offset..offset + length]));
              r.core == View() && r.ret == ret && payload[..] == Splice(old(payload[..]), offset, r.data)
    {
      if resid == SPECIAL_RESID {
        ret := SpecialReadCommand(cmd, payload, offset, length);
      } else {
        var request := ReadFrom(ifnum, resid, cmd, length);
        var reply := tasks(calls, request);
        var data := Fit(reply.data, length);
        calls := calls + [Call(request, Reply(reply.ret, data))];
        ret := reply.ret;
        forall i | 0 <= i < length {
          payload[offset + i] := data[i];
        }
        assert payload[..] == Splice(old(payload[..]), offset, data);
      }
    }
  }
}
