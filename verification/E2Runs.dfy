/** What every run of the termination keeps. */
module E2Runs {
  import opened Text
  import opened ProcedureTable
  import opened E2Protocol

  /** states[i] is the state before evs[i]. */
  predicate IsRun(states: seq<State>, evs: seq<Event>)
  {
    && |states| == |evs| + 1
    && forall i :: 0 <= i < |evs| ==> Enabled(states[i], evs[i]) && states[i + 1] == Step(states[i], evs[i])
  }

  // ----- RIC_SCTP_CLEAR_ALL, one key at a time -----

  /** What closing the connection of one key does. */
  function CloseOne(s: State, key: string): State
  {
    var conn := Connection(s, key);
    if ReservedKey(key) || conn.None? then s
    else
      Emit(s, Some(s.connections[conn.value].enodbName), [Send(RIC_SCTP_CONNECTION_FAILURE, None)])
      .(connections := s.connections - {conn.value})
  }

  lemma CloseAllSteps(s: State, keys: seq<string>)
    ensures CloseAll(s, keys) == if keys == [] then s else CloseAll(CloseOne(s, keys[0]), keys[1..])
  {
  }

  lemma {:induction false} CloseAllKeeps(s: State, keys: seq<string>)
    ensures CloseAll(s, keys).procedures == s.procedures
    ensures CloseAll(s, keys).registry == s.registry
    decreases |keys|
  {
    hide CloseAll, CloseOne;
    CloseAllSteps(s, keys);
    if keys != [] {
      CloseOneKeeps(s, keys[0]);
      CloseAllKeeps(CloseOne(s, keys[0]), keys[1..]);
    }
  }

  lemma CloseOneKeeps(s: State, key: string)
    ensures CloseOne(s, key).procedures == s.procedures && CloseOne(s, key).registry == s.registry
  {
  }

  /** The connections that are closed, in the order of the keys that lead to them. */
  function Closed(s: State, keys: seq<string>): (r: seq<nat>)
    ensures forall i :: 0 <= i < |r| ==> r[i] in s.connections
    decreases |keys|
  {
    if keys == [] then []
    else
      var conn := Connection(s, keys[0]);
      (if ReservedKey(keys[0]) || conn.None? then [] else [conn.value]) + Closed(CloseOne(s, keys[0]), keys[1..])
  }

  predicate BoundTo(s: State, name: string, conn: nat) { name in s.registry && s.registry[name] == conn }

  /** Some key leads to the connection. */
  predicate Listed(s: State, keys: seq<string>, c: nat)
  {
    exists k :: k in keys && !ReservedKey(k) && BoundTo(s, k, c)
  }

  /** Each live connection that a key leads to is closed once, and no other is. */
  lemma {:induction false} ClosedExactly(s: State, keys: seq<string>, c: nat)
    ensures c in Closed(s, keys) <==> c in s.connections && Listed(s, keys, c)
    ensures forall i, j :: 0 <= i < j < |Closed(s, keys)| ==> Closed(s, keys)[i] != Closed(s, keys)[j]
    decreases |keys|
  {
    hide Emit;
    if keys != [] {
      var t := CloseOne(s, keys[0]);
      CloseOneKeeps(s, keys[0]);
      ClosedExactly(t, keys[1..], c);
      assert c in s.connections ==> (Listed(s, keys, c) <==> (!ReservedKey(keys[0]) && BoundTo(s, keys[0], c)) || Listed(t, keys[1..], c));
    }
  }

  lemma {:induction false} CloseAllConnections(s: State, keys: seq<string>, c: nat)
    ensures c in CloseAll(s, keys).connections <==> c in s.connections && c !in Closed(s, keys)
    ensures c in CloseAll(s, keys).connections ==> CloseAll(s, keys).connections[c] == s.connections[c]
    decreases |keys|
  {
    hide CloseAll, Emit;
    CloseAllSteps(s, keys);
    if keys != [] {
      CloseAllConnections(CloseOne(s, keys[0]), keys[1..], c);
    }
  }

  /** One connection failure for each connection, under its name. */
  function Notices(connections: map<nat, Cu>, conns: seq<nat>, counter: int): (r: seq<Rmr>)
    requires forall i :: 0 <= i < |conns| ==> conns[i] in connections
    ensures |r| == |conns|
  {
    seq(|conns|, i requires 0 <= i < |conns| =>
      Rmr(RIC_SCTP_CONNECTION_FAILURE, Some(connections[conns[i]].enodbName), None, counter + i))
  }

  lemma {:induction false} CloseAllEmits(s: State, keys: seq<string>)
    ensures CloseAll(s, keys).outbox == s.outbox + Notices(s.connections, Closed(s, keys), s.transactionCounter)
    ensures CloseAll(s, keys).transactionCounter == s.transactionCounter + |Closed(s, keys)|
    decreases |keys|
  {
    hide CloseAll, Emitted;
    CloseAllSteps(s, keys);
    if keys != [] {
      var t, conn := CloseOne(s, keys[0]), Connection(s, keys[0]);
      CloseAllEmits(t, keys[1..]);
      if !ReservedKey(keys[0]) && conn.Some? {
        NoticesCons(s.connections, conn.value, Closed(t, keys[1..]), s.transactionCounter, s.outbox);
      }
    }
  }

  lemma NoticesCons(connections: map<nat, Cu>, c: nat, rest: seq<nat>, counter: int, out: seq<Rmr>)
    requires c in connections && forall i :: 0 <= i < |rest| ==> rest[i] in connections - {c}
    ensures out + Emitted(Some(connections[c].enodbName), [Send(RIC_SCTP_CONNECTION_FAILURE, None)], counter)
              + Notices(connections - {c}, rest, counter + 1)
         == out + Notices(connections, [c] + rest, counter)
  {
  }

  lemma ClearIs(s: State, keys: seq<string>)
    requires Enabled(s, ClearAll(keys))
    ensures Step(s, ClearAll(keys)) == CloseAll(s, keys).(registry := map[])
  {
  }

  // ----- reachable states of the procedure table -----

  predicate Settled(status: ProcedureState)
  {
    || status == SETUP_ONGOING || status == SETUP_COMPLETED || status == SERVICE_UPDATE_ONGOING
    || status == SUBS_ONGOING || status == INDICATION_ONGOING || status == INDICATION_COMPLETED
    || status == SUBS_DEL_ONGOING || status == CONTROL_ONGOING || status == CONTROL_COMPLETED
  }

  predicate AllSettled(m: Procedures)
  {
    forall name :: name in m ==> Settled(m[name].status)
  }

  lemma StepSettles(s: State, ev: Event)
    requires Enabled(s, ev) && AllSettled(s.procedures)
    ensures AllSettled(Step(s, ev).procedures)
  {
    hide Setup, Bind, Emitted, CloseAll, GatedStep, XappStep;
    match ev {
      case ClearAll(keys) => CloseAllKeeps(s, keys);
      case NodePdu(conn, pdu) => if !pdu.E2setup? { GatedSettles(s, s.connections[conn].enodbName, pdu); }
      case XappMessage(meid, kind, sent) => XappSettles(s, meid, kind, sent);
      case _ =>
    }
  }

  lemma GatedSettles(s: State, name: string, pdu: Pdu)
    requires !pdu.E2setup? && AllSettled(s.procedures)
    ensures AllSettled(GatedStep(s, name, pdu).procedures)
  {
    hide Emitted, ErrorSends, FirstRequest;
  }

  lemma XappSettles(s: State, meid: string, kind: XappKind, sent: bool)
    requires AllSettled(s.procedures)
    ensures AllSettled(XappStep(s, meid, kind, sent).procedures)
  {
    hide Emitted, Forwards;
  }

  /** Nine of the seventeen states occur between steps; so NOT_INITIATED means exactly that there is no entry. */
  lemma {:induction false} ReachableStatuses(states: seq<State>, evs: seq<Event>, k: nat, name: string)
    requires IsRun(states, evs) && k <= |evs| && states[0].procedures == map[]
    ensures AllSettled(states[k].procedures)
    ensures StatusOf(states[k].procedures, name) == NOT_INITIATED <==> name !in states[k].procedures
  {
    hide Step, Enabled;
    if k > 0 {
      ReachableStatuses(states, evs, k - 1, name);
      StepSettles(states[k - 1], evs[k - 1]);
    }
  }

  // ----- what each event sends -----

  /** The name that the messages of an event other than RIC_SCTP_CLEAR_ALL carry, and those messages. */
  function CausedName(s: State, ev: Event): Option<string>
    requires Enabled(s, ev)
  {
    match ev
    case NodePdu(conn, pdu) =>
      Some(if pdu.E2setup? then Setup(s.connections[conn].enodbName, pdu.setupIes).name else s.connections[conn].enodbName)
    case Disconnect(conn, _) => Some(s.connections[conn].enodbName)
    case PollError(conn) => Some(s.connections[conn].enodbName)
    case WriteReady(conn, _, _, _) => Some(s.connections[conn].enodbName)
    case _ => None
  }

  function Caused(s: State, ev: Event): seq<Send>
    requires Enabled(s, ev)
  {
    match ev
    case NodePdu(conn, pdu) =>
      var name := s.connections[conn].enodbName;
      if pdu.E2setup? then
        if pdu.encodes && Setup(name, pdu.setupIes).transactionId >= 0 then [Send(RIC_E2_SETUP_REQ, None)] else []
      else if name == "" || name !in s.procedures then []
      else React(pdu, s.procedures[name]).sends
    case Disconnect(_, _) => [Send(RIC_SCTP_CONNECTION_FAILURE, None)]
    case PollError(_) => [Send(RIC_SCTP_CONNECTION_FAILURE, None)]
    case WriteReady(_, soError, _, _) => if soError then [Send(RIC_SCTP_CONNECTION_FAILURE, None)] else []
    case XappMessage(_, KEEP_ALIVE_REQ, _) => [Send(E2_TERM_KEEP_ALIVE_RESP, None)]
    case XappMessage(_, HEALTH_CHECK_REQ, _) => [Send(RIC_HEALTH_CHECK_RESP, None)]
    case TermInit => [Send(E2_TERM_INIT, None)]
    case _ => []
  }

  function Sent(s: State, ev: Event): seq<Rmr>
    requires Enabled(s, ev)
  {
    if ev.ClearAll? then Notices(s.connections, Closed(s, ev.keys), s.transactionCounter)
    else Emitted(CausedName(s, ev), Caused(s, ev), s.transactionCounter)
  }

  lemma StepEmits(s: State, ev: Event)
    requires Enabled(s, ev)
    ensures Step(s, ev).outbox == s.outbox + Sent(s, ev)
    ensures Step(s, ev).transactionCounter == s.transactionCounter + |Sent(s, ev)|
  {
    if ev.ClearAll? {
      CloseAllEmits(s, ev.keys);
    } else {
      hide Emitted, Setup, React, Bind, Overlay;
      NothingEmitted(s.outbox, CausedName(s, ev), s.transactionCounter);
    }
  }

  /** RIC_SCTP_CLEAR_ALL reports each live connection that the registry leads to, once and under its name. */
  lemma ClearReports(s: State, keys: seq<string>, c: nat)
    requires Enabled(s, ClearAll(keys))
    ensures Step(s, ClearAll(keys)).outbox == s.outbox + Notices(s.connections, Closed(s, keys), s.transactionCounter)
    ensures c in Closed(s, keys) <==>
              c in s.connections && exists key :: !("host:" <= key) && !("msg:" <= key) && BoundTo(s, key, c)
    ensures forall i, j :: 0 <= i < j < |Closed(s, keys)| ==> Closed(s, keys)[i] != Closed(s, keys)[j]
    ensures c in Step(s, ClearAll(keys)).connections <==> c in s.connections && c !in Closed(s, keys)
  {
    hide Closed, Notices, CloseAll;
    StepEmits(s, ClearAll(keys));
    ClosedExactly(s, keys, c);
    CloseAllConnections(s, keys, c);
    assert forall key :: key in s.registry <==> key in (set k | k in keys);
  }

  // ----- one counter value per message -----

  /** The messages carry the transaction ids base, base + 1, ..., and the next id is the counter. */
  predicate Numbered(s: State, base: int)
  {
    && s.transactionCounter == base + |s.outbox|
    && forall i :: 0 <= i < |s.outbox| ==> s.outbox[i].xact == base + i
  }

  lemma StepNumbers(s: State, ev: Event, base: int)
    requires Enabled(s, ev) && Numbered(s, base)
    ensures Numbered(Step(s, ev), base) && s.outbox <= Step(s, ev).outbox
  {
    hide Step, CausedName, Caused, Closed;
    StepEmits(s, ev);
  }

  /** Over a run, the listener and the main thread together give RMR one id after the other from the one main drew;
      nothing sent is taken back. */
  lemma {:induction false} XactsConsecutive(states: seq<State>, evs: seq<Event>, j: nat, k: nat, base: int)
    requires IsRun(states, evs) && j <= k <= |evs| && states[0] == Initial(base)
    ensures Numbered(states[k], base) && states[j].outbox <= states[k].outbox
    decreases k
  {
    hide Step, Enabled;
    if k > 0 {
      XactsConsecutive(states, evs, if j < k then j else k - 1, k - 1, base);
      StepNumbers(states[k - 1], evs[k - 1], base);
    }
  }

  /** What the listener has sent. */
  function OfListener(out: seq<Rmr>): seq<Rmr>
  {
    if out == [] then []
    else
      var before, last := OfListener(out[..|out| - 1]), out[|out| - 1];
      if last.mtype == E2_TERM_INIT then before else before + [last]
  }

  /** The listener's own ids: increasing, and without gaps exactly when every E2_TERM_INIT came after them. */
  lemma {:induction false} OfListenerXacts(out: seq<Rmr>, base: int)
    requires forall i :: 0 <= i < |out| ==> out[i].xact == base + i
    ensures var own := OfListener(out);
            && |own| <= |out|
            && (forall i :: 0 <= i < |own| ==> base + i <= own[i].xact < base + |out| && own[i] == out[own[i].xact - base])
            && (forall i, j :: 0 <= i < j < |own| ==> own[i].xact < own[j].xact)
  {
    if out != [] {
      OfListenerXacts(out[..|out| - 1], base);
    }
  }

  lemma {:induction false} AllOfListener(out: seq<Rmr>)
    ensures OfListener(out) == out <==> forall i :: 0 <= i < |out| ==> out[i].mtype != E2_TERM_INIT
    ensures |OfListener(out)| <= |out|
  {
    if out != [] {
      AllOfListener(out[..|out| - 1]);
    }
  }

  lemma OnlyMainInits(s: State, ev: Event)
    requires Enabled(s, ev)
    ensures ev.TermInit? ==> OfListener(Sent(s, ev)) == [] && |Sent(s, ev)| == 1
    ensures !ev.TermInit? ==> OfListener(Sent(s, ev)) == Sent(s, ev)
  {
    hide Caused, CausedName, Closed, Enabled, OfListener;
    AllOfListener(Sent(s, ev));
    if ev.TermInit? {
      InitIsCaused(s);
      OneInit(Sent(s, ev));
    } else if !ev.ClearAll? {
      CausedWithoutInit(s, ev);
    }
  }

  lemma InitIsCaused(s: State)
    ensures Enabled(s, TermInit) && Caused(s, TermInit) == [Send(E2_TERM_INIT, None)]
  {
  }

  lemma OneInit(out: seq<Rmr>)
    requires |out| == 1 && out[0].mtype == E2_TERM_INIT
    ensures OfListener(out) == []
  {
  }

  lemma CausedWithoutInit(s: State, ev: Event)
    requires Enabled(s, ev) && !ev.TermInit?
    ensures forall i :: 0 <= i < |Caused(s, ev)| ==> Caused(s, ev)[i].mtype != E2_TERM_INIT
  {
    hide Setup, React;
    if ev.NodePdu? && !ev.pdu.E2setup? {
      var name := s.connections[ev.conn].enodbName;
      if name in s.procedures { ReactsWithoutInit(ev.pdu, s.procedures[name]); }
    }
  }

  lemma ReactsWithoutInit(pdu: Pdu, entry: Handling)
    requires !pdu.E2setup?
    ensures forall i :: 0 <= i < |React(pdu, entry).sends| ==> React(pdu, entry).sends[i].mtype != E2_TERM_INIT
  {
    hide DiagnosedCode, IesPresent, Routing, FirstRequest;
  }

  lemma GaplessIsPrefix(out: seq<Rmr>, base: int)
    requires forall i :: 0 <= i < |out| ==> out[i].xact == base + i
    ensures var own := OfListener(out); (forall i :: 0 <= i < |own| ==> own[i].xact == base + i) <==> own <= out
  {
    hide OfListener;
    OfListenerXacts(out, base);
    var own := OfListener(out);
    if forall i :: 0 <= i < |own| ==> own[i].xact == base + i {
      forall i | 0 <= i < |own| ensures own[i] == out[i] {
        assert own[i] == out[own[i].xact - base];
      }
    } else {
      var i :| 0 <= i < |own| && own[i].xact != base + i;
      assert own[i] != out[i];
    }
  }

  lemma {:induction false} MainInitsCounted(states: seq<State>, evs: seq<Event>, k: nat)
    requires IsRun(states, evs) && k <= |evs| && states[0].outbox == []
    ensures (forall i :: 0 <= i < k ==> !evs[i].TermInit?) <==> OfListener(states[k].outbox) == states[k].outbox
  {
    hide Step, Enabled, Sent, OfListener;
    AllOfListener(states[k].outbox);
    if k > 0 {
      var s, ev := states[k - 1], evs[k - 1];
      MainInitsCounted(states, evs, k - 1);
      StepEmits(s, ev);
      OnlyMainInits(s, ev);
      AllOfListener(s.outbox);
      AllOfListener(Sent(s, ev));
      InitsIn(s.outbox, Sent(s, ev));
      assert (forall i :: 0 <= i < k ==> !evs[i].TermInit?) <==> (forall i :: 0 <= i < k - 1 ==> !evs[i].TermInit?) && !ev.TermInit?;
    }
  }

  lemma InitsIn(out: seq<Rmr>, more: seq<Rmr>)
    ensures OfListener(out + more) == out + more <==> OfListener(out) == out && OfListener(more) == more
  {
    hide OfListener;
    AllOfListener(out);
    AllOfListener(more);
    AllOfListener(out + more);
    assert forall i :: 0 <= i < |more| ==> (out + more)[|out| + i] == more[i];
    assert forall i :: 0 <= i < |out| ==> (out + more)[i] == out[i];
  }

  /** Over a run, the listener's ids strictly increase from the one main drew on; they are consecutive exactly as
      long as no E2_TERM_INIT precedes one of them, in particular when the main thread sends none. */
  lemma ListenerXacts(states: seq<State>, evs: seq<Event>, k: nat, base: int)
    requires IsRun(states, evs) && k <= |evs| && states[0] == Initial(base)
    ensures var out, own := states[k].outbox, OfListener(states[k].outbox);
            && (forall i :: 0 <= i < |own| ==> base <= own[i].xact < states[k].transactionCounter)
            && (forall i, j :: 0 <= i < j < |own| ==> own[i].xact < own[j].xact)
            && ((forall i :: 0 <= i < |own| ==> own[i].xact == base + i) <==> own <= out)
            && ((forall i :: 0 <= i < k ==> !evs[i].TermInit?) <==> own == out)
  {
    hide OfListener, Step, Enabled;
    XactsConsecutive(states, evs, k, k, base);
    OfListenerXacts(states[k].outbox, base);
    GaplessIsPrefix(states[k].outbox, base);
    MainInitsCounted(states, evs, k);
  }

  // ----- the setup gate -----

  /** An E2setup that is accepted for a name: the node id and a transaction id that is not negative. */
  predicate AcceptsSetup(s: State, ev: Event, name: string)
    requires Enabled(s, ev)
  {
    && ev.NodePdu? && ev.pdu.E2setup?
    && var c := Setup(s.connections[ev.conn].enodbName, ev.pdu.setupIes);
       c.transactionId >= 0 && c.name == name
  }

  /** The events that close the connection of that name: loss, a failed epoll call, a failed write. */
  predicate Removes(s: State, ev: Event, name: string)
    requires Enabled(s, ev)
  {
    match ev
    case Disconnect(conn, _) => s.connections[conn].enodbName == name
    case PollError(conn) => s.connections[conn].enodbName == name
    case WriteReady(conn, soError, epollOk, sent) => s.connections[conn].enodbName == name && !soError && !(epollOk && sent)
    case XappMessage(meid, kind, sent) =>
      var conn := Connection(s, meid);
      && conn.Some? && Forwards(kind) && !sent
      && s.connections[conn.value].isConnected && s.connections[conn.value].enodbName == name
    case _ => false
  }

  lemma StepEntry(s: State, ev: Event, name: string)
    requires Enabled(s, ev)
    ensures name in Step(s, ev).procedures <==> AcceptsSetup(s, ev, name) || (name in s.procedures && !Removes(s, ev, name))
  {
    hide Setup, React, Emitted, CloseAll, Bind;
    if ev.ClearAll? { CloseAllKeeps(s, ev.keys); }
  }

  /** Removals in the part lo..hi of a run. */
  predicate Unremoved(states: seq<State>, evs: seq<Event>, lo: nat, hi: nat, name: string)
    requires IsRun(states, evs) && hi <= |evs|
  {
    forall j :: lo <= j < hi ==> !Removes(states[j], evs[j], name)
  }

  /** A setup for the name was accepted before event k, and its connection has not been closed since. */
  predicate SetUp(states: seq<State>, evs: seq<Event>, k: nat, name: string)
    requires IsRun(states, evs) && k <= |evs|
  {
    exists i :: 0 <= i < k && AcceptsSetup(states[i], evs[i], name) && Unremoved(states, evs, i + 1, k, name)
  }

  /** The table has an entry exactly for the names that are set up. */
  lemma {:induction false} EntryMeansSetUp(states: seq<State>, evs: seq<Event>, k: nat, name: string)
    requires IsRun(states, evs) && k <= |evs| && states[0].procedures == map[]
    ensures name in states[k].procedures <==> SetUp(states, evs, k, name)
  {
    hide Step, Enabled, AcceptsSetup, Removes;
    if k > 0 {
      var s, ev := states[k - 1], evs[k - 1];
      StepEntry(s, ev, name);
      EntryMeansSetUp(states, evs, k - 1, name);
      if AcceptsSetup(s, ev, name) {
        assert Unremoved(states, evs, k, k, name);
      } else if name in s.procedures && !Removes(s, ev, name) {
        var i :| 0 <= i < k - 1 && AcceptsSetup(states[i], evs[i], name) && Unremoved(states, evs, i + 1, k - 1, name);
        assert Unremoved(states, evs, i + 1, k, name);
      }
      if SetUp(states, evs, k, name) {
        var i :| 0 <= i < k && AcceptsSetup(states[i], evs[i], name) && Unremoved(states, evs, i + 1, k, name);
        if i < k - 1 {
          assert Unremoved(states, evs, i + 1, k - 1, name);
        }
      }
    }
  }

  /** A message from a node other than E2setup has no effect at all unless the name of its connection is
      not empty and set up; and then what it causes carries that name. */
  lemma SetupGate(states: seq<State>, evs: seq<Event>, k: nat)
    requires IsRun(states, evs) && k < |evs| && states[0].procedures == map[]
    requires evs[k].NodePdu? && !evs[k].pdu.E2setup? && evs[k].conn in states[k].connections
    ensures var s, name := states[k], states[k].connections[evs[k].conn].enodbName;
            if name != "" && SetUp(states, evs, k, name) then
              && name in s.procedures
              && states[k + 1].outbox
                 == s.outbox + Emitted(Some(name), React(evs[k].pdu, s.procedures[name]).sends, s.transactionCounter)
            else states[k + 1] == s
  {
    hide Emitted, React, SetUp;
    var name := states[k].connections[evs[k].conn].enodbName;
    EntryMeansSetUp(states, evs, k, name);
    StepEmits(states[k], evs[k]);
  }

  lemma StepTransaction(s: State, ev: Event, name: string)
    requires Enabled(s, ev) && name in Step(s, ev).procedures
    ensures name in s.procedures ==> Step(s, ev).procedures[name].transactionId == s.procedures[name].transactionId
    ensures name !in s.procedures ==>
              AcceptsSetup(s, ev, name)
              && Step(s, ev).procedures[name].transactionId
                 == Setup(s.connections[ev.conn].enodbName, ev.pdu.setupIes).transactionId
  {
    hide Setup, Emitted, CloseAll, Bind, GatedStep, XappStep;
    match ev {
      case ClearAll(keys) => CloseAllKeeps(s, keys);
      case NodePdu(conn, pdu) => if !pdu.E2setup? { GatedKeepsIds(s, s.connections[conn].enodbName, pdu, name); }
      case XappMessage(meid, kind, sent) => XappKeepsIds(s, meid, kind, sent, name);
      case _ =>
    }
  }

  lemma GatedKeepsIds(s: State, gated: string, pdu: Pdu, name: string)
    requires !pdu.E2setup?
    ensures var t := GatedStep(s, gated, pdu);
            && (name in t.procedures <==> name in s.procedures)
            && (name in s.procedures ==> t.procedures[name].transactionId == s.procedures[name].transactionId)
  {
    hide Emitted, React;
  }

  lemma XappKeepsIds(s: State, meid: string, kind: XappKind, sent: bool, name: string)
    ensures var t := XappStep(s, meid, kind, sent);
            name in t.procedures ==> name in s.procedures && t.procedures[name].transactionId == s.procedures[name].transactionId
  {
    hide Emitted, Forwards, Before, After;
  }

  /** After an accepted setup the stored id is the request's exactly when there was no entry, or one with that id. */
  lemma RepeatedSetup(s: State, ev: Event, name: string)
    requires Enabled(s, ev) && AcceptsSetup(s, ev, name)
    ensures var id := Setup(s.connections[ev.conn].enodbName, ev.pdu.setupIes).transactionId;
            && name in Step(s, ev).procedures
            && (Step(s, ev).procedures[name].transactionId == id
                <==> name !in s.procedures || s.procedures[name].transactionId == id)
  {
    hide Step, Setup;
    StepEntry(s, ev, name);
    StepTransaction(s, ev, name);
  }

  /** Event i of a run created the entry that a name has before event k. */
  predicate CreatedAt(states: seq<State>, evs: seq<Event>, i: nat, k: nat, name: string)
    requires IsRun(states, evs) && i < k <= |evs|
  {
    && AcceptsSetup(states[i], evs[i], name) && name !in states[i].procedures
    && Unremoved(states, evs, i + 1, k, name) && name in states[k].procedures
    && states[k].procedures[name].transactionId
       == Setup(states[i].connections[evs[i].conn].enodbName, evs[i].pdu.setupIes).transactionId
  }

  /** The stored transaction id is that of the setup that created the entry: a repeated setup does not change it. */
  lemma {:induction false} StoredTransaction(states: seq<State>, evs: seq<Event>, k: nat, name: string)
    requires IsRun(states, evs) && k <= |evs| && states[0].procedures == map[]
    requires name in states[k].procedures
    ensures exists i :: 0 <= i < k && CreatedAt(states, evs, i, k, name)
  {
    hide Step, Enabled, AcceptsSetup, Removes, Setup;
    var s, ev := states[k - 1], evs[k - 1];
    StepEntry(s, ev, name);
    StepTransaction(s, ev, name);
    if name in s.procedures && !Removes(s, ev, name) {
      StoredTransaction(states, evs, k - 1, name);
      var i :| 0 <= i < k - 1 && CreatedAt(states, evs, i, k - 1, name);
      assert Unremoved(states, evs, i + 1, k, name);
      assert CreatedAt(states, evs, i, k, name);
    } else {
      assert name !in s.procedures by { RemovedIsGone(s, ev, name); }
      assert Unremoved(states, evs, k, k, name);
      assert CreatedAt(states, evs, k - 1, k, name);
    }
  }

  lemma RemovedIsGone(s: State, ev: Event, name: string)
    requires Enabled(s, ev) && (name !in s.procedures || Removes(s, ev, name)) && name in Step(s, ev).procedures
    ensures name !in s.procedures
  {
    StepEntry(s, ev, name);
  }
}
