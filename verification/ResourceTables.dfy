/** The map from resource IDs to task interfaces, filled once by registration. */
module ResourceTables {
  import opened ControlTypes

  type Entries = s: seq<byte> | |s| == RESOURCE_TABLE_MAX witness seq(RESOURCE_TABLE_MAX, i => 0)

  /** `reserved` is None until the table is initialised. */
  datatype Table = Table(entries: Entries, reserved: Option<byte>)

  datatype Added = Added(table: Table, code: nat)

  function Initialised(reservedId: byte): Table {
    Table(seq(RESOURCE_TABLE_MAX, i => IFNUM_RESERVED), Some(reservedId))
  }

  function AddFrom(t: Table, ids: seq<byte>, ifnum: byte): Added
    decreases ids
  {
    if ids == [] then Added(t, 0)
    else if t.reserved == Some(ids[0]) then Added(t, 3)
    else if t.entries[ids[0]] < IFNUM_RESERVED then Added(t, 4)
    else AddFrom(t.(entries := t.entries[ids[0] := ifnum]), ids[1..], ifnum)
  }

  function Add(t: Table, ids: seq<byte>, ifnum: byte): Added {
    if ifnum == IFNUM_RESERVED then Added(t, 1) else AddFrom(t, ids, ifnum)
  }

  function Search(t: Table, resid: byte): Option<byte> {
    if t.reserved == Some(resid) then Some(IFNUM_RESERVED)
    else if t.entries[resid] < IFNUM_RESERVED then Some(t.entries[resid])
    else None
  }

  /** The table after the first `j` interfaces have been asked for their IDs, and the code so far. */
  function RegisterUpTo(t: Table, lists: seq<seq<byte>>, j: nat): (r: (Table, byte))
    requires j <= |lists|
  {
    if j == 0 then (t, SUCCESS)
    else
      var before := RegisterUpTo(t, lists, j - 1);
      var a := Add(before.0, lists[j - 1], (j - 1) % 256);
      (a.table, if a.code != 0 then REGISTRATION_FAILED else before.1)
  }

  function Register(t: Table, lists: seq<seq<byte>>): (Table, byte) {
    RegisterUpTo(t, lists, |lists|)
  }

  /** The static table of resource_table.xc. */
  class ResourceTable {
    const entries: array<byte>
    var reservedId: byte
    var reservedIdSpecified: bool

    ghost predicate Valid()
    {
      entries.Length == RESOURCE_TABLE_MAX
    }

    ghost function View(): Table
      requires Valid()
      reads this, entries
    {
      Table(entries[..], if reservedIdSpecified then Some(reservedId) else None)
    }

    constructor ()
      ensures Valid() && fresh(entries)
      ensures View() == Table(Zeros(RESOURCE_TABLE_MAX), None)
    {
      entries := new byte[RESOURCE_TABLE_MAX](i => 0);
      reservedId, reservedIdSpecified := 0, false;
      new;
      assert entries[..] == Zeros(RESOURCE_TABLE_MAX);
    }

    method Init(id: byte)
      requires Valid()
      modifies this, entries
      ensures View() == Initialised(id)
    {
      var i := 0;
      while i < RESOURCE_TABLE_MAX
        invariant 0 <= i <= RESOURCE_TABLE_MAX
        invariant forall k :: 0 <= k < i ==> entries[k] == IFNUM_RESERVED
      {
        entries[i] := IFNUM_RESERVED;
        i := i + 1;
      }
      reservedId, reservedIdSpecified := id, true;
      assert entries[..] == Initialised(id).entries;
    }

    // The range check on the ID is left out: an eight-bit ID is always below RESOURCE_TABLE_MAX.
    method AddResources(ids: seq<byte>, ifnum: byte) returns (code: nat)
      requires Valid()
      modifies entries
      ensures Added(View(), code) == Add(old(View()), ids, ifnum)
    {
      if ifnum == IFNUM_RESERVED {
        return 1;
      }
      var i := 0;
      while i < |ids|
        invariant 0 <= i <= |ids|
        invariant AddFrom(View(), ids[i..], ifnum) == AddFrom(old(View()), ids, ifnum)
      {
        assert ids[i..][0] == ids[i] && ids[i..][1..] == ids[i + 1..];
        if reservedIdSpecified && ids[i] == reservedId {
          return 3;
        }
        if entries[ids[i]] < IFNUM_RESERVED {
          return 4;
        }
        ghost var before := View();
        entries[ids[i]] := ifnum;
        assert View() == before.(entries := before.entries[ids[i] := ifnum]);
        i := i + 1;
      }
      return 0;
    }

    method SearchTable(resid: byte) returns (code: nat, ifnum: byte)
      requires Valid()
      ensures code == 0 <==> Search(View(), resid) == Some(ifnum)
      ensures code != 0 <==> Search(View(), resid) == None
    {
      if reservedIdSpecified && resid == reservedId {
        return 0, IFNUM_RESERVED;
      }
      if entries[resid] < IFNUM_RESERVED {
        return 0, entries[resid];
      }
      return 1, 0;
    }
  }
}

/** Registration is a partial map: what is accepted, what is refused and who owns each ID afterwards. */
module RegistrationTheorems {
  import opened ControlTypes
  import opened ResourceTables

  // ----- One interface -----

  ghost predicate Claimable(t: Table, ids: seq<byte>, i: nat)
    requires i < |ids|
  {
    t.reserved != Some(ids[i]) && t.entries[ids[i]] == IFNUM_RESERVED && ids[i] !in ids[..i]
  }

  /** `k` is the position of the first ID that cannot be claimed, or the length of the list. */
  ghost predicate FirstConflict(t: Table, ids: seq<byte>, k: nat) {
    && k <= |ids|
    && (forall i :: 0 <= i < k ==> Claimable(t, ids, i))
    && (k < |ids| ==> !Claimable(t, ids, k))
  }

  ghost predicate ClaimedExactly(t: Table, claimed: seq<byte>, ifnum: byte, after: Table) {
    && after.reserved == t.reserved
    && forall r: byte :: after.entries[r] == if r in claimed then ifnum else t.entries[r]
  }

  lemma ConflictAfterHead(t: Table, ids: seq<byte>, ifnum: byte, k: nat)
    requires ids != [] && Claimable(t, ids, 0) && ifnum != IFNUM_RESERVED
    requires FirstConflict(t.(entries := t.entries[ids[0] := ifnum]), ids[1..], k)
    ensures FirstConflict(t, ids, k + 1)
  {
    var t1 := t.(entries := t.entries[ids[0] := ifnum]);
    forall i | 0 < i < |ids|
      ensures Claimable(t, ids, i) <==> Claimable(t1, ids[1..], i - 1)
    {
      assert ids[..i] == [ids[0]] + ids[1..][..i - 1];
    }
  }

  /** The code for the conflict at `k`: the ID is reserved, or claimed, possibly by this list itself. */
  function ConflictCode(t: Table, ids: seq<byte>, k: nat): nat {
    if k >= |ids| then 0 else if t.reserved == Some(ids[k]) then 3 else 4
  }

  lemma {:induction false} AddClaimsPrefix(t: Table, ids: seq<byte>, ifnum: byte)
    requires ifnum != IFNUM_RESERVED
    decreases ids
    ensures exists k: nat :: FirstConflict(t, ids, k)
              && ClaimedExactly(t, ids[..k], ifnum, Add(t, ids, ifnum).table)
              && Add(t, ids, ifnum).code == ConflictCode(t, ids, k)
  {
    if ids == [] || t.reserved == Some(ids[0]) || t.entries[ids[0]] < IFNUM_RESERVED {
      assert FirstConflict(t, ids, 0);
    } else {
      var t1 := t.(entries := t.entries[ids[0] := ifnum]);
      AddClaimsPrefix(t1, ids[1..], ifnum);
      var k: nat :| FirstConflict(t1, ids[1..], k)
        && ClaimedExactly(t1, ids[1..][..k], ifnum, Add(t1, ids[1..], ifnum).table)
        && Add(t1, ids[1..], ifnum).code == ConflictCode(t1, ids[1..], k);
      ConflictAfterHead(t, ids, ifnum, k);
      assert ids[..k + 1] == [ids[0]] + ids[1..][..k];
    }
  }

  lemma PrefixWasUnclaimed(t: Table, ids: seq<byte>, k: nat)
    requires FirstConflict(t, ids, k)
    ensures forall r :: r in ids[..k] ==> r in ids && t.reserved != Some(r) && t.entries[r] == IFNUM_RESERVED
  {
    forall r | r in ids[..k]
      ensures r in ids && t.reserved != Some(r) && t.entries[r] == IFNUM_RESERVED
    {
      var a :| 0 <= a < k && ids[a] == r;
      assert Claimable(t, ids, a);
    }
  }

  // ----- All interfaces -----

  ghost predicate DuplicateFree(ids: seq<byte>) {
    forall a, b :: 0 <= a < b < |ids| ==> ids[a] != ids[b]
  }

  ghost predicate DistinctUpTo(lists: seq<seq<byte>>, j: nat)
    requires j <= |lists|
  {
    && (forall i :: 0 <= i < j ==> DuplicateFree(lists[i]) && SPECIAL_RESID !in lists[i])
    && (forall i, k, r: byte :: 0 <= i < k < j && r in lists[i] ==> r !in lists[k])
  }

  /** Below the reserved number an entry is `i` exactly for the IDs that interface `i` listed. */
  ghost predicate OwnedExactly(t: Table, lists: seq<seq<byte>>, j: nat)
    requires j <= |lists|
  {
    && t.reserved == Some(SPECIAL_RESID)
    && (forall r: byte :: t.entries[r] < IFNUM_RESERVED ==> t.entries[r] < j && r in lists[t.entries[r]])
    && (forall r: byte, i :: 0 <= i < j && r in lists[i] ==> t.entries[r] == i < IFNUM_RESERVED)
  }

  ghost function Fresh(): Table {
    Initialised(SPECIAL_RESID)
  }

  /** Claiming a whole list against a table that records exactly the earlier lists. */
  lemma ListAcceptedIff(t: Table, lists: seq<seq<byte>>, j: nat)
    requires j < |lists| && j < IFNUM_RESERVED
    requires DistinctUpTo(lists, j) && OwnedExactly(t, lists, j)
    ensures FirstConflict(t, lists[j], |lists[j]|) <==> DistinctUpTo(lists, j + 1)
  {
    var ids := lists[j];
    if FirstConflict(t, ids, |ids|) {
      forall a, b | 0 <= a < b < |ids|
        ensures ids[a] != ids[b]
      {
        assert Claimable(t, ids, b);
        assert ids[a] in ids[..b];
      }
      PrefixWasUnclaimed(t, ids, |ids|);
      assert ids[..|ids|] == ids;
    }
    if DistinctUpTo(lists, j + 1) {
      forall i | 0 <= i < |ids|
        ensures Claimable(t, ids, i)
      {
        assert ids[i] in ids;
      }
    }
  }

  lemma OwnershipGrows(t: Table, lists: seq<seq<byte>>, j: nat, after: Table)
    requires 0 < j <= |lists| && j <= 255
    requires OwnedExactly(t, lists, j - 1) && DistinctUpTo(lists, j)
    requires ClaimedExactly(t, lists[j - 1], j - 1, after)
    ensures OwnedExactly(after, lists, j)
  {
  }

  lemma CodeZeroIff(t: Table, ids: seq<byte>, ifnum: byte)
    requires ifnum != IFNUM_RESERVED
    ensures var a := Add(t, ids, ifnum);
            && (a.code == 0 <==> FirstConflict(t, ids, |ids|))
            && (a.code == 0 ==> ClaimedExactly(t, ids, ifnum, a.table))
  {
    var a := Add(t, ids, ifnum);
    AddClaimsPrefix(t, ids, ifnum);
    var k: nat :| FirstConflict(t, ids, k)
      && ClaimedExactly(t, ids[..k], ifnum, a.table) && a.code == ConflictCode(t, ids, k);
    if k == |ids| {
      assert ids[..k] == ids;
    }
  }

  /** One more list, taken by a table that records exactly the earlier ones. */
  lemma ListExtends(t: Table, lists: seq<seq<byte>>, j: nat)
    requires 0 < j <= |lists| && j <= 255
    requires DistinctUpTo(lists, j - 1) && OwnedExactly(t, lists, j - 1)
    ensures var a := Add(t, lists[j - 1], j - 1);
            && (a.code == 0 <==> DistinctUpTo(lists, j))
            && (a.code == 0 ==> OwnedExactly(a.table, lists, j))
  {
    CodeZeroIff(t, lists[j - 1], j - 1);
    ListAcceptedIff(t, lists, j - 1);
    var a := Add(t, lists[j - 1], j - 1);
    if a.code == 0 {
      OwnershipGrows(t, lists, j, a.table);
    }
  }

  lemma {:induction false} RegisteredSoFar(lists: seq<seq<byte>>, j: nat)
    requires j <= |lists|
    ensures var (t, ret) := RegisterUpTo(Fresh(), lists, j);
            && (ret == SUCCESS <==> j <= 255 && DistinctUpTo(lists, j))
            && (ret == SUCCESS ==> OwnedExactly(t, lists, j))
  {
    if j == 0 {
    } else {
      RegisteredSoFar(lists, j - 1);
      var (t, ret) := RegisterUpTo(Fresh(), lists, j - 1);
      if ret == SUCCESS && j <= 255 {
        ListExtends(t, lists, j);
      }
    }
  }

  lemma {:induction false} CodesSoFar(lists: seq<seq<byte>>, j: nat)
    requires j <= |lists|
    ensures RegisterUpTo(Fresh(), lists, j).1 in {SUCCESS, REGISTRATION_FAILED}
  {
    if j == 0 {
    } else {
      CodesSoFar(lists, j - 1);
    }
  }

  /** Main result: registration succeeds exactly on at most 255 disjoint, duplicate-free lists without ID 0. */
  lemma RegistrationSucceedsIff(lists: seq<seq<byte>>)
    ensures Register(Fresh(), lists).1 == SUCCESS <==> |lists| <= 255 && DistinctUpTo(lists, |lists|)
    ensures Register(Fresh(), lists).1 in {SUCCESS, REGISTRATION_FAILED}
  {
    RegisteredSoFar(lists, |lists|);
    CodesSoFar(lists, |lists|);
  }

  /** After success a nonzero ID is found on interface `i` exactly when interface `i` listed it. */
  lemma RegistrationIsMap(lists: seq<seq<byte>>, resid: byte, i: byte)
    requires Register(Fresh(), lists).1 == SUCCESS && resid != SPECIAL_RESID
    ensures Search(Register(Fresh(), lists).0, resid) == Some(i) <==> i < |lists| && resid in lists[i]
  {
    RegisteredSoFar(lists, |lists|);
  }

  /**
   * Failed or not, every interface adds the part of its list before its own first conflict, and nothing else. Interface
   * numbers are eight bits wide, and the one that means unused adds nothing.
   */
  lemma EachListAddsItsPrefix(lists: seq<seq<byte>>, j: nat)
    requires j < |lists|
    ensures var before := RegisterUpTo(Fresh(), lists, j).0;
            var after := RegisterUpTo(Fresh(), lists, j + 1).0;
            if j % 256 == IFNUM_RESERVED then
              after == before && Add(before, lists[j], j % 256).code == 1
            else
              exists k: nat :: FirstConflict(before, lists[j], k)
                && ClaimedExactly(before, lists[j][..k], j % 256, after)
  {
    if j % 256 != IFNUM_RESERVED {
      AddClaimsPrefix(RegisterUpTo(Fresh(), lists, j).0, lists[j], j % 256);
    }
  }

  /** First registration wins, for any number of interfaces. */
  lemma {:induction false} EntriesNeverOverwritten(lists: seq<seq<byte>>, i: nat, j: nat, resid: byte)
    requires i <= j <= |lists|
    requires RegisterUpTo(Fresh(), lists, i).0.entries[resid] < IFNUM_RESERVED
    ensures RegisterUpTo(Fresh(), lists, j).0.entries[resid] == RegisterUpTo(Fresh(), lists, i).0.entries[resid]
  {
    if i == j {
    } else {
      EntriesNeverOverwritten(lists, i, j - 1, resid);
      var before := RegisterUpTo(Fresh(), lists, j - 1).0;
      var ifnum: byte := (j - 1) % 256;
      if ifnum != IFNUM_RESERVED {
        AddClaimsPrefix(before, lists[j - 1], ifnum);
        var k: nat :| FirstConflict(before, lists[j - 1], k)
          && ClaimedExactly(before, lists[j - 1][..k], ifnum, Add(before, lists[j - 1], ifnum).table);
        PrefixWasUnclaimed(before, lists[j - 1], k);
      }
    }
  }

  /** What routing relies on: an entry names an interface that exists and listed the ID, even after a failure. */
  ghost predicate RoutesOnlyTo(t: Table, lists: seq<seq<byte>>) {
    && t.reserved == Some(SPECIAL_RESID)
    && forall r: byte :: t.entries[r] < IFNUM_RESERVED ==>
         r != SPECIAL_RESID && t.entries[r] < |lists| && r in lists[t.entries[r]]
  }

  lemma ListKeepsRoutes(before: Table, lists: seq<seq<byte>>, j: nat)
    requires j < |lists| <= 255 && RoutesOnlyTo(before, lists)
    ensures RoutesOnlyTo(Add(before, lists[j], j).table, lists)
  {
    AddClaimsPrefix(before, lists[j], j);
    var k: nat :| FirstConflict(before, lists[j], k)
      && ClaimedExactly(before, lists[j][..k], j, Add(before, lists[j], j).table);
    PrefixWasUnclaimed(before, lists[j], k);
  }

  lemma {:induction false} RoutesSoFar(lists: seq<seq<byte>>, j: nat)
    requires j <= |lists| <= 255
    ensures RoutesOnlyTo(RegisterUpTo(Fresh(), lists, j).0, lists)
  {
    if j == 0 {
    } else {
      RoutesSoFar(lists, j - 1);
      ListKeepsRoutes(RegisterUpTo(Fresh(), lists, j - 1).0, lists, j - 1);
    }
  }

  lemma RegistrationRoutes(lists: seq<seq<byte>>)
    requires |lists| <= 255
    ensures RoutesOnlyTo(Register(Fresh(), lists).0, lists)
  {
    RoutesSoFar(lists, |lists|);
  }
}
