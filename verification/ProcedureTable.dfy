/** connectionHandlingPerE2NodeMap: the procedure in progress for each node name, reached only by
    walking over the entries. */
module ProcedureTable {

  datatype ProcedureState =
    | NOT_INITIATED | SETUP_ONGOING | SETUP_COMPLETED
    | SERVICE_UPDATE_ONGOING | SERVICE_UPDATE_COMPLETED
    | SUBS_ONGOING | SUBS_COMPLETED
    | INDICATION_ONGOING | INDICATION_COMPLETED
    | SUBS_DEL_ONGOING | SUBS_DEL_COMPLETED
    | CONTROL_ONGOING | CONTROL_COMPLETED
    | NODE_CONF_UPDATE_ONGOING | NODE_CONF_UPDATE_COMPLETED
    | RESET_ONGOING | RESET_COMPLETED

  /** E2NodeConnectionHandling */
  datatype Handling = Handling(status: ProcedureState, transactionId: int)

  type Procedures = map<string, Handling>

  // ----- what the four operations mean -----

  function WithStatus(m: Procedures, name: string, status: ProcedureState): Procedures
  {
    if name in m then m[name := m[name].(status := status)] else m
  }

  lemma StatusTwice(m: Procedures, name: string, first: ProcedureState, second: ProcedureState)
    ensures WithStatus(WithStatus(m, name, first), name, second) == WithStatus(m, name, second)
  {
  }

  /** A setup for a name that already has an entry keeps the transaction id of the first one. */
  function WithSetup(m: Procedures, name: string, transactionId: int): Procedures
  {
    if name in m then WithStatus(m, name, SETUP_ONGOING) else m[name := Handling(SETUP_ONGOING, transactionId)]
  }

  function Without(m: Procedures, name: string): Procedures { m - {name} }

  function StatusOf(m: Procedures, name: string): ProcedureState
  {
    if name in m then m[name].status else NOT_INITIATED
  }

  // ----- entries and the map they stand for -----

  type Entry = (string, Handling)

  predicate DistinctKeys(es: seq<Entry>)
  {
    forall i, j :: 0 <= i < j < |es| ==> es[i].0 != es[j].0
  }

  ghost function ToMap(es: seq<Entry>): Procedures
  {
    if es == [] then map[] else ToMap(es[..|es| - 1])[es[|es| - 1].0 := es[|es| - 1].1]
  }

  lemma {:induction false} ToMapKeys(es: seq<Entry>, name: string)
    ensures name in ToMap(es) <==> exists i :: 0 <= i < |es| && es[i].0 == name
  {
    if es != [] {
      ToMapKeys(es[..|es| - 1], name);
      if name in ToMap(es[..|es| - 1]) {
        var i :| 0 <= i < |es| - 1 && es[..|es| - 1][i].0 == name;
        assert es[i].0 == name;
      }
      if i :| 0 <= i < |es| && es[i].0 == name && i < |es| - 1 {
        assert es[..|es| - 1][i].0 == name;
      }
    }
  }

  lemma {:induction false} ToMapAt(es: seq<Entry>, i: nat)
    requires DistinctKeys(es) && i < |es|
    ensures es[i].0 in ToMap(es) && ToMap(es)[es[i].0] == es[i].1
  {
    if i < |es| - 1 {
      ToMapAt(es[..|es| - 1], i);
    }
  }

  lemma {:induction false} ToMapUpdate(es: seq<Entry>, i: nat, h: Handling)
    requires DistinctKeys(es) && i < |es|
    ensures ToMap(es[i := (es[i].0, h)]) == ToMap(es)[es[i].0 := h]
  {
    var n := |es| - 1;
    var u := es[i := (es[i].0, h)];
    if i < n {
      ToMapUpdate(es[..n], i, h);
      assert u[..n] == es[..n][i := (es[i].0, h)];
    } else {
      assert u[..n] == es[..n];
    }
  }

  lemma ToMapLast(es: seq<Entry>)
    requires es != []
    ensures ToMap(es) == ToMap(es[..|es| - 1])[es[|es| - 1].0 := es[|es| - 1].1]
  {
  }

  lemma {:induction false} ToMapRemove(es: seq<Entry>, i: nat)
    requires DistinctKeys(es) && i < |es|
    ensures DistinctKeys(es[..i] + es[i + 1..])
    ensures ToMap(es[..i] + es[i + 1..]) == ToMap(es) - {es[i].0}
  {
    var n := |es| - 1;
    var rest := es[..i] + es[i + 1..];
    if i < n {
      hide ToMap;
      var front := es[..n];
      ToMapRemove(front, i);
      RemoveBeforeLast(es, i);
      ToMapLast(rest);
      ToMapLast(es);
      SetAfterRemoval(ToMap(front), es[i].0, es[n].0, es[n].1);
    } else {
      assert rest == es[..n];
      ToMapKeys(es[..n], es[i].0);
    }
  }

  lemma RemoveBeforeLast(es: seq<Entry>, i: nat)
    requires i < |es| - 1
    ensures var n, rest := |es| - 1, es[..i] + es[i + 1..];
            |rest| == n && rest[..n - 1] == es[..n][..i] + es[..n][i + 1..] && rest[n - 1] == es[n]
  {
  }

  lemma SetAfterRemoval(m: Procedures, gone: string, name: string, h: Handling)
    requires gone != name
    ensures m[name := h] - {gone} == (m - {gone})[name := h]
  {
  }

  // ----- the table -----

  class Table {
    var entries: seq<Entry>

    constructor ()
      ensures Valid() && Contents() == map[]
    {
      entries := [];
    }

    ghost predicate Valid()
      reads this
    {
      DistinctKeys(entries)
    }

    ghost function Contents(): Procedures
      reads this
    {
      ToMap(entries)
    }

    /** The loop that all operations share. */
    method Find(name: string) returns (i: int)
      requires Valid()
      ensures i < 0 <==> name !in Contents()
      ensures 0 <= i ==> i < |entries| && entries[i].0 == name && Contents()[name] == entries[i].1
    {
      ToMapKeys(entries, name);
      i := 0;
      while i < |entries|
        invariant 0 <= i <= |entries|
        invariant forall k :: 0 <= k < i ==> entries[k].0 != name
      {
        if entries[i].0 == name {
          ToMapAt(entries, i);
          return;
        }
        i := i + 1;
      }
      i := -1;
    }

    /** getE2tProcedureOngoingStatus: the empty name is never found. */
    method Get(name: string) returns (found: bool, handling: Handling)
      requires Valid()
      ensures found <==> name != "" && name in Contents()
      ensures found ==> handling == Contents()[name]
    {
      handling := Handling(NOT_INITIATED, 0);
      if name == "" { return false, handling; }
      var i := Find(name);
      found := i >= 0;
      if found { handling := entries[i].1; }
    }

    /** setE2ProcedureOngoingStatus */
    method SetStatus(name: string, status: ProcedureState)
      requires Valid()
      modifies this
      ensures Valid() && Contents() == WithStatus(old(Contents()), name, status)
      ensures name in old(Contents()) ==>
                Contents() == old(Contents())[name := Handling(status, old(Contents())[name].transactionId)]
      ensures name !in old(Contents()) ==> Contents() == old(Contents())
    {
      var i := Find(name);
      if i >= 0 {
        ToMapUpdate(entries, i, entries[i].1.(status := status));
        entries := entries[i := (entries[i].0, entries[i].1.(status := status))];
      }
    }

    /** insertE2SetupProcedureOngoing */
    method InsertSetup(name: string, transactionId: int)
      requires Valid()
      modifies this
      ensures Valid() && Contents() == WithSetup(old(Contents()), name, transactionId)
      ensures name in old(Contents()) ==>
                Contents() == old(Contents())[name := Handling(SETUP_ONGOING, old(Contents())[name].transactionId)]
      ensures name !in old(Contents()) ==> Contents() == old(Contents())[name := Handling(SETUP_ONGOING, transactionId)]
    {
      var i := Find(name);
      if i < 0 {
        ToMapKeys(entries, name);
        ghost var before := entries;
        entries := entries + [(name, Handling(SETUP_ONGOING, transactionId))];
        assert entries[..|before|] == before;
      } else {
        SetStatus(name, SETUP_ONGOING);
      }
    }

    /** removeE2ConnectionEntryFromMap */
    method Remove(name: string)
      requires Valid()
      modifies this
      ensures Valid() && Contents() == Without(old(Contents()), name)
      ensures Contents() == map other | other in old(Contents()) && other != name :: old(Contents())[other]
    {
      var i := Find(name);
      if i >= 0 {
        ToMapRemove(entries, i);
        entries := entries[..i] + entries[i + 1..];
      }
    }

    /** currentE2tProcedureOngoingStatus */
    method Current(name: string) returns (status: ProcedureState)
      requires Valid()
      ensures status == StatusOf(Contents(), name)
      ensures name in Contents() ==> status == Contents()[name].status
      ensures name !in Contents() ==> status == NOT_INITIATED
    {
      var i := Find(name);
      status := if i >= 0 then entries[i].1.status else NOT_INITIATED;
    }
  }

  // ----- what the operations do, and what they leave alone -----

  /** The entry of the name itself: a status is stored beside the old transaction id, a first setup stores its own. */
  lemma OwnEntry(m: Procedures, name: string, status: ProcedureState, transactionId: int)
    ensures WithStatus(m, name, status) == if name in m then m[name := Handling(status, m[name].transactionId)] else m
    ensures WithSetup(m, name, transactionId)
         == m[name := Handling(SETUP_ONGOING, if name in m then m[name].transactionId else transactionId)]
    ensures Without(m, name) == map other | other in m && other != name :: m[other]
    ensures name in m ==> StatusOf(WithStatus(m, name, status), name) == status
    ensures name !in m ==> StatusOf(m, name) == NOT_INITIATED
  {
  }

  /** Every operation touches one key only. */
  lemma OneKey(m: Procedures, name: string, other: string, status: ProcedureState, transactionId: int)
    requires other != name
    ensures other in m <==> other in WithStatus(m, name, status)
    ensures other in m <==> other in WithSetup(m, name, transactionId)
    ensures other in m <==> other in Without(m, name)
    ensures other in m ==>
              m[other] == WithStatus(m, name, status)[other] == WithSetup(m, name, transactionId)[other] == Without(m, name)[other]
    ensures name !in Without(m, name) && name in WithSetup(m, name, transactionId)
    ensures WithStatus(m, name, status).Keys == m.Keys
  {
  }
}
