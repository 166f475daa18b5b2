/** Where an Error Indication goes. */
module E2Routing {
  import opened Text
  import opened ProcedureTable
  import opened E2Protocol
  import opened E2Runs

  /** The presence bits depend on which IEs occur, not on their order or repetition. */
  lemma BitsIgnoreOrder(ies: seq<ErrorIe>, others: seq<ErrorIe>, setupId: int)
    requires (set ie | ie in ies) == (set ie | ie in others)
    ensures IesPresent(ies, setupId) == IesPresent(others, setupId)
  {
    var a, b := set ie | ie in ies, set ie | ie in others;
    assert a == b;
    assert forall ie :: ie in ies <==> ie in a;
    assert forall ie :: ie in others <==> ie in b;
  }

  /** At most one of E2Manager and SubMgr is chosen: E2Manager only with the stored transaction id, SubMgr only
      with a request id and a cause. */
  lemma OneDestination(ies: seq<ErrorIe>, entry: Handling)
    ensures var to := Routing(DiagnosedCode(ies), IesPresent(ies, entry.transactionId), entry.status);
            && !(to.toE2Manager && to.toSubMgr)
            && (to.toE2Manager ==> ErrorTransactionId(entry.transactionId) in ies)
            && (to.toSubMgr ==> ErrorRequestId in ies && ErrorCause in ies)
  {
  }

  /** The messages of a gated Error Indication, case by case. */
  lemma ErrorSendsExactly(ies: seq<ErrorIe>, encodes: bool, entry: Handling)
    ensures var sends, code := ErrorSends(ies, encodes, entry), DiagnosedCode(ies);
            && sends != [] && sends[|sends| - 1].mtype == RIC_ERROR_INDICATION && |sends| <= 2
            && (Send(RIC_E2_RIC_ERROR_INDICATION, None) in sends <==>
                  && encodes && ErrorTransactionId(entry.transactionId) in ies
                  && (code == CODE_E2SETUP || code == CODE_SERVICE_UPDATE
                      || (code == 0 && (entry.status == SETUP_COMPLETED || entry.status == SERVICE_UPDATE_ONGOING))))
            && (Send(RIC_E2_RAN_ERROR_INDICATION, None) in sends <==>
                  && ErrorRequestId in ies && ErrorCause in ies
                  && (code == CODE_SUBSCRIPTION || (code == 0 && entry.status == SUBS_ONGOING)))
  {
    var to := Routing(DiagnosedCode(ies), IesPresent(ies, entry.transactionId), entry.status);
    var last := Send(RIC_ERROR_INDICATION, None);
    if to.toE2Manager && encodes {
      assert ErrorSends(ies, encodes, entry) == [Send(RIC_E2_RIC_ERROR_INDICATION, None), last];
    } else if !to.toE2Manager && to.toSubMgr {
      assert ErrorSends(ies, encodes, entry) == [Send(RIC_E2_RAN_ERROR_INDICATION, None), last];
    } else {
      assert ErrorSends(ies, encodes, entry) == [last];
    }
  }

  /** The last CriticalityDiagnostics with a procedure code. */
  predicate LastDiagnosed(ies: seq<ErrorIe>, i: int)
  {
    && 0 <= i < |ies| && ies[i].Diagnostics? && ies[i].procedureCode.Some?
    && forall j :: i < j < |ies| ==> !(ies[j].Diagnostics? && ies[j].procedureCode.Some?)
  }

  /** A diagnosed procedure code is that of the last CriticalityDiagnostics with one. */
  lemma {:induction false} DiagnosedCodeIsLast(ies: seq<ErrorIe>, i: int)
    requires LastDiagnosed(ies, i)
    ensures Some(DiagnosedCode(ies)) == ies[i].procedureCode
  {
    if i < |ies| - 1 {
      DiagnosedCodeIsLast(ies[..|ies| - 1], i);
    }
  }

  lemma {:induction false} NoDiagnosedCode(ies: seq<ErrorIe>)
    requires forall j :: 0 <= j < |ies| ==> !(ies[j].Diagnostics? && ies[j].procedureCode.Some?)
    ensures DiagnosedCode(ies) == 0
  {
    if ies != [] {
      NoDiagnosedCode(ies[..|ies| - 1]);
    }
  }

  lemma {:induction false} SomeDiagnosedIsLast(ies: seq<ErrorIe>)
    requires forall i :: !LastDiagnosed(ies, i)
    ensures forall j :: 0 <= j < |ies| ==> !(ies[j].Diagnostics? && ies[j].procedureCode.Some?)
  {
    if ies != [] {
      var n := |ies| - 1;
      var front := ies[..n];
      assert !LastDiagnosed(ies, n);
      forall i ensures !LastDiagnosed(front, i) {
        if LastDiagnosed(front, i) {
          assert forall j :: i < j < n ==> ies[j] == front[j];
          assert LastDiagnosed(ies, i);
        }
      }
      SomeDiagnosedIsLast(front);
      assert forall j :: 0 <= j < n ==> ies[j] == front[j];
    }
  }

  /** The code that an Error Indication is judged by: that of the last CriticalityDiagnostics with one, or 0. */
  lemma DiagnosedCodeExactly(ies: seq<ErrorIe>, code: int)
    ensures DiagnosedCode(ies) == code <==>
              if exists i :: LastDiagnosed(ies, i) then exists i :: LastDiagnosed(ies, i) && ies[i].procedureCode == Some(code)
              else code == 0
  {
    if exists i :: LastDiagnosed(ies, i) {
      var i :| LastDiagnosed(ies, i);
      DiagnosedCodeIsLast(ies, i);
      assert forall j :: LastDiagnosed(ies, j) ==> j == i;
    } else {
      SomeDiagnosedIsLast(ies);
      NoDiagnosedCode(ies);
    }
  }

  /** Over a run: every Error Indication of a node that is set up is reported as RIC_ERROR_INDICATION under its
      name, last; at most one message precedes it: to E2Manager, only if the IEs quote the transaction id of the setup
      that created the entry, or to SubMgr, only if they hold a request id and a cause. */
  lemma ErrorIndicationOverRuns(states: seq<State>, evs: seq<Event>, k: nat, name: string, ies: seq<ErrorIe>, encodes: bool)
    requires IsRun(states, evs) && k < |evs| && states[0].procedures == map[]
    requires evs[k].NodePdu? && evs[k].pdu == ErrorIndication(ies, encodes)
    requires name == states[k].connections[evs[k].conn].enodbName && name != "" && SetUp(states, evs, k, name)
    ensures name in states[k].procedures
    ensures var before, after := |states[k].outbox|, states[k + 1].outbox;
            && before < |after| <= before + 2
            && after[|after| - 1].mtype == RIC_ERROR_INDICATION && after[|after| - 1].meid == Some(name)
            && (|after| == before + 2 ==>
                  && after[before].meid == Some(name)
                  && (if after[before].mtype == RIC_E2_RIC_ERROR_INDICATION then
                        exists i :: 0 <= i < k && CreatedAt(states, evs, i, k, name)
                          && ErrorTransactionId(SetupId(states[i], evs[i])) in ies
                      else
                        after[before].mtype == RIC_E2_RAN_ERROR_INDICATION && ErrorRequestId in ies && ErrorCause in ies))
  {
    hide SetUp, ErrorSends, Step, CreatedAt, SetupStep;
    SetupGate(states, evs, k);
    var entry := states[k].procedures[name];
    ErrorSendsExactly(ies, encodes, entry);
    var sends := ErrorSends(ies, encodes, entry);
    assert React(evs[k].pdu, entry).sends == sends;
    StoredTransaction(states, evs, k, name);
    var i :| 0 <= i < k && CreatedAt(states, evs, i, k, name);
    CreatedSetupId(states, evs, i, k, name);
    if |sends| == 2 {
      FirstOfTwo(ies, encodes, entry);
      assert sends[0] in sends;
    }
  }

  lemma FirstOfTwo(ies: seq<ErrorIe>, encodes: bool, entry: Handling)
    ensures var sends := ErrorSends(ies, encodes, entry);
            |sends| == 2 ==> sends[0] == Send(RIC_E2_RIC_ERROR_INDICATION, None) || sends[0] == Send(RIC_E2_RAN_ERROR_INDICATION, None)
  {
  }

  /** The transaction id of an accepted setup event. */
  function SetupId(s: State, ev: Event): int
  {
    if ev.NodePdu? && ev.pdu.E2setup? && ev.conn in s.connections
    then Setup(s.connections[ev.conn].enodbName, ev.pdu.setupIes).transactionId else -1
  }

  lemma CreatedSetupId(states: seq<State>, evs: seq<Event>, i: nat, k: nat, name: string)
    requires IsRun(states, evs) && i < k <= |evs| && CreatedAt(states, evs, i, k, name)
    ensures name in states[k].procedures && states[k].procedures[name].transactionId == SetupId(states[i], evs[i])
  {
  }
}
