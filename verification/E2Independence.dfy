/** Runs in which each connection only ever names one node: the registry is exact, and what happens to one
    node depends on that node's events alone. */
module E2Independence {
  import opened Text
  import opened ProcedureTable
  import opened E2Protocol
  import opened E2Runs
  import opened E2Registry

  // ----- the registry over runs -----

  lemma {:induction false} RunOwned(states: seq<State>, evs: seq<Event>, k: nat, base: int, owner: nat -> string)
    requires IsRun(states, evs) && k <= |evs| && states[0] == Initial(base) && Owners(owner) && AllOneName(evs, owner)
    ensures Owned(states[k], owner)
  {
    hide Step, Enabled, OneName;
    if k > 0 {
      RunOwned(states, evs, k - 1, base, owner);
      StepOwned(states[k - 1], evs[k - 1], owner);
    }
  }

  lemma IdentifyOneName(evs: seq<Event>, owner: nat -> string)
    requires AllIdentify(evs, owner)
    ensures AllOneName(evs, owner)
  {
  }

  /** A setup that identifies its owner keeps the connection's name. */
  lemma OwnedSetupConsistent(s: State, conn: nat, ies: seq<SetupIe>, encodes: bool, owner: nat -> string)
    requires conn in s.connections && Consistent(s) && Owners(owner) && Owned(s, owner) && Identifies(ies, owner(conn))
    ensures Consistent(SetupStep(s, conn, ies, encodes))
  {
    hide Names, SetupStep, Consistent;
    NamesOwned(ies, owner(conn));
    SetupConsistency(s, conn, ies, encodes);
    assert Overlay("", owner(conn)) == owner(conn) == Overlay(owner(conn), owner(conn));
  }

  /** In every reachable state each key of the registry leads to a live connection of that name. */
  lemma {:induction false} RegistryConsistent(states: seq<State>, evs: seq<Event>, k: nat, base: int, owner: nat -> string)
    requires IsRun(states, evs) && k <= |evs| && states[0] == Initial(base) && Owners(owner) && AllIdentify(evs, owner)
    ensures Consistent(states[k])
  {
    hide SetupStep, Owned, Identifies;
    if k > 0 {
      var s, ev := states[k - 1], evs[k - 1];
      RegistryConsistent(states, evs, k - 1, base, owner);
      IdentifyOneName(evs, owner);
      RunOwned(states, evs, k - 1, base, owner);
      if IsSetup(ev) {
        OwnedSetupConsistent(s, ev.conn, ev.pdu.setupIes, ev.pdu.encodes, owner);
      } else {
        OtherEventsConsistent(s, ev);
      }
    }
  }

  /** Every live connection that has a name is found under it. */
  predicate Findable(s: State)
  {
    forall c: nat :: c in s.connections && s.connections[c].enodbName != "" ==> BoundTo(s, s.connections[c].enodbName, c)
  }

  /** No two live connections share a name. */
  predicate Unshared(s: State)
  {
    forall c: nat, d: nat ::
      c in s.connections && d in s.connections && s.connections[c].enodbName == s.connections[d].enodbName != "" ==> c == d
  }

  lemma StepFindable(s: State, ev: Event, owner: nat -> string)
    requires Enabled(s, ev) && Owners(owner) && Owned(s, owner) && Findable(s)
    requires IsSetup(ev) ==> Identifies(ev.pdu.setupIes, owner(ev.conn))
    requires Unshared(s) && Unshared(Step(s, ev))
    ensures Findable(Step(s, ev))
  {
    if IsSetup(ev) {
      OwnedSetupStep(s, ev.conn, ev.pdu.setupIes, ev.pdu.encodes, owner);
      SetupFindable(s, Step(s, ev), ev.conn, owner);
    } else if ev.ClearAll? {
      ClearFindable(s, ev.keys, owner);
    } else {
      StepEffect(s, ev);
      EffectFindable(s, Step(s, ev), EffectOf(s, ev), owner);
    }
  }

  lemma SetupFindable(s: State, t: State, conn: nat, owner: nat -> string)
    requires Owners(owner) && Owned(s, owner) && Findable(s) && Unshared(t) && conn in s.connections
    requires t.connections == s.connections[conn := s.connections[conn].(enodbName := owner(conn))]
    requires t.registry == s.registry[owner(conn) := conn]
    ensures Findable(t)
  {
    hide ReservedKey;
    forall c: nat | c in t.connections && t.connections[c].enodbName != "" ensures BoundTo(t, t.connections[c].enodbName, c) {
      if c != conn {
        assert t.connections[c].enodbName != t.connections[conn].enodbName;
        assert BoundTo(s, t.connections[c].enodbName, c);
      }
    }
  }

  lemma EffectFindable(s: State, t: State, e: Effect, owner: nat -> string)
    requires Effected(s, t, e) && Owners(owner) && Unshared(s) && Owned(s, owner) && Findable(s)
    requires e.Opens? ==> e.cu.enodbName == ""
    ensures Findable(t)
  {
    hide ReservedKey;
    forall c: nat | c in t.connections && t.connections[c].enodbName != "" ensures BoundTo(t, t.connections[c].enodbName, c) {
      assert c in s.connections && t.connections[c].enodbName == s.connections[c].enodbName == owner(c);
      assert BoundTo(s, owner(c), c);
      assert !ReservedKey(owner(c));
    }
  }

  lemma ClearFindable(s: State, keys: seq<string>, owner: nat -> string)
    requires Enabled(s, ClearAll(keys)) && Owners(owner) && Owned(s, owner) && Findable(s)
    ensures Findable(Step(s, ClearAll(keys)))
  {
    hide CloseAll, Closed, ReservedKey;
    forall c: nat | c in CloseAll(s, keys).connections ensures CloseAll(s, keys).connections[c].enodbName == "" {
      CloseAllConnections(s, keys, c);
      ClosedExactly(s, keys, c);
      assert BoundTo(s, owner(c), c) ==> owner(c) in keys && !ReservedKey(owner(c));
    }
  }

  /** A key leads to a connection exactly when that is live and bears the name. */
  ghost predicate Exact(s: State)
  {
    forall name: string, c: nat :: BoundTo(s, name, c) <==> name != "" && c in s.connections && s.connections[c].enodbName == name
  }

  lemma ExactIsFindable(s: State)
    requires Exact(s)
    ensures Findable(s)
  {
  }

  lemma FindableIsExact(s: State, owner: nat -> string)
    requires Findable(s) && Consistent(s) && Owners(owner) && Owned(s, owner)
    ensures Exact(s)
  {
  }

  lemma ExactIsUnshared(s: State)
    requires Exact(s)
    ensures Unshared(s)
  {
    forall c: nat, d: nat | c in s.connections && d in s.connections && s.connections[c].enodbName == s.connections[d].enodbName != ""
      ensures c == d
    {
      assert BoundTo(s, s.connections[c].enodbName, c) && BoundTo(s, s.connections[c].enodbName, d);
    }
  }

  /** While no two live connections share a name, the registry is exactly the named live connections; and only
      then: the first shared name hides a connection. */
  lemma {:induction false} RegistryExact(states: seq<State>, evs: seq<Event>, k: nat, base: int, owner: nat -> string)
    requires IsRun(states, evs) && k <= |evs| && states[0] == Initial(base) && Owners(owner) && AllIdentify(evs, owner)
    ensures (forall i :: 0 <= i <= k ==> Unshared(states[i])) <==> (forall i :: 0 <= i <= k ==> Exact(states[i]))
  {
    hide Step, Enabled, Owned, Unshared, Exact, Identifies;
    IdentifyOneName(evs, owner);
    if forall i :: 0 <= i <= k ==> Unshared(states[i]) {
      if k > 0 {
        RegistryExact(states, evs, k - 1, base, owner);
        assert Exact(states[k - 1]);
        RunOwned(states, evs, k - 1, base, owner);
        ExactIsFindable(states[k - 1]);
        assert Unshared(states[k - 1]) && Unshared(states[k]);
        StepFindable(states[k - 1], evs[k - 1], owner);
      }
      RegistryConsistent(states, evs, k, base, owner);
      RunOwned(states, evs, k, base, owner);
      FindableIsExact(states[k], owner);
    }
    if forall i :: 0 <= i <= k ==> Exact(states[i]) {
      forall i | 0 <= i <= k ensures Unshared(states[i]) {
        ExactIsUnshared(states[i]);
      }
    }
  }

  /** A run of five events: a second connection sets up under the first one's name and takes the key; its loss then
      takes key and table entry from the first connection, which is live and still bears the name. */
  lemma SharedName(base: int, c: nat, d: nat, hostKey: string, hostKey': string, name: string, id: int, id': int)
    requires c != d && "host:" <= hostKey && "host:" <= hostKey' && name != "" && id >= 0
    ensures var s := AfterSetup(base, c, hostKey, name, id);
            && Enabled(s, Accept(d, hostKey'))
            && var t := Step(s, Accept(d, hostKey'));
               && Exact(t) && Enabled(t, Request(d, name, id'))
               && var u := Step(t, Request(d, name, id'));
                  && BoundTo(u, name, d) && name in u.procedures && !Exact(u) && Enabled(u, Disconnect(d, true))
                  && var v := Step(u, Disconnect(d, true));
                     && c in v.connections && v.connections[c].enodbName == name
                     && name !in v.registry && name !in v.procedures
  {
    hide AfterSetup, Collect, Emitted, Overlay, Bind, Exact;
    var s := AfterSetup(base, c, hostKey, name, id);
    AfterSetupIs(base, c, hostKey, name, id);
    var t := Step(s, Accept(d, hostKey'));
    ConformingSetup("", name, id');
    assert Overlay("", name) == name by { OverlayNothing(name); }
    BindOne(t.registry, name, d);
    var u := Step(t, Request(d, name, id'));
    OneNamedIsExact(t, c, name);
    SharedIsNotExact(u, c, d);
  }

  lemma SharedIsNotExact(s: State, c: nat, d: nat)
    requires c != d && c in s.connections && d in s.connections
    requires s.connections[c].enodbName == s.connections[d].enodbName != ""
    ensures !Exact(s)
  {
    var name := s.connections[c].enodbName;
    assert !(BoundTo(s, name, c) && BoundTo(s, name, d));
  }

  lemma OverlayNothing(name: string)
    ensures Overlay("", name) == name
  {
  }

  lemma OneNamedIsExact(s: State, c: nat, name: string)
    requires name != "" && s.registry == map[name := c] && c in s.connections && s.connections[c].enodbName == name
    requires forall d: nat :: d in s.connections && d != c ==> s.connections[d].enodbName == ""
    ensures Exact(s)
  {
  }

  // ----- one node's view -----

  /** The messages under a name, without their transaction ids. */
  function Told(out: seq<Rmr>, node: string): seq<Send>
  {
    if out == [] then []
    else
      var before, last := Told(out[..|out| - 1], node), out[|out| - 1];
      if last.meid == Some(node) then before + [Send(last.mtype, last.subId)] else before
  }

  lemma {:induction false} ToldMore(out: seq<Rmr>, meid: Option<string>, sends: seq<Send>, counter: int, node: string)
    ensures Told(out + Emitted(meid, sends, counter), node) == Told(out, node) + if meid == Some(node) then sends else []
    decreases |sends|
  {
    var more := Emitted(meid, sends, counter);
    if sends == [] {
      assert out + more == out;
    } else {
      var n := |sends| - 1;
      assert (out + more)[..|out| + n] == out + Emitted(meid, sends[..n], counter);
      ToldMore(out, meid, sends[..n], counter, node);
      assert sends == sends[..n] + [sends[n]];
    }
  }

  /** What the events of one node can see and cause: its table entry, its registry entry, its connections, and the
      messages under its name. */
  ghost predicate SameView(s: State, r: State, node: string, owner: nat -> string)
  {
    && (node in s.procedures <==> node in r.procedures)
    && (node in s.procedures ==> s.procedures[node] == r.procedures[node])
    && (node in s.registry <==> node in r.registry)
    && (node in s.registry ==> s.registry[node] == r.registry[node])
    && (forall c: nat :: owner(c) == node ==> (c in s.connections <==> c in r.connections))
    && (forall c: nat :: owner(c) == node && c in s.connections ==> s.connections[c] == r.connections[c])
    && Told(s.outbox, node) == Told(r.outbox, node)
  }

  /** The events of a node: those on its connections, xApp messages for it, and the global clear. */
  predicate Concerns(ev: Event, node: string, owner: nat -> string)
  {
    match ev
    case XappMessage(meid, _, _) => meid == node
    case ClearAll(_) => true
    case TermInit => false
    case _ => owner(ev.conn) == node
  }

  /** A global clear, as far as one node is concerned. */
  function Share(ev: Event, node: string): Event
  {
    match ev
    case ClearAll(keys) => ClearAll(if node in keys then [node] else [])
    case _ => ev
  }

  function OwnEvents(evs: seq<Event>, node: string, owner: nat -> string): seq<Event>
  {
    if evs == [] then []
    else
      var before, last := OwnEvents(evs[..|evs| - 1], node, owner), evs[|evs| - 1];
      if Concerns(last, node, owner) then before + [Share(last, node)] else before
  }

  /** The keys of the registry are at most that node's. */
  predicate Alone(r: State, node: string) { forall key :: key in r.registry ==> key == node }

  /** A message from a node changes nothing but the status of its own entry, and is reported under its name. */
  lemma GatedEffect(s: State, name: string, pdu: Pdu)
    requires !pdu.E2setup?
    ensures var t := GatedStep(s, name, pdu);
            && t.connections == s.connections && t.registry == s.registry
            && t.procedures == (if name == "" || name !in s.procedures then s.procedures
                                else Marked(s, name, React(pdu, s.procedures[name]).next).procedures)
            && t.outbox == s.outbox + Emitted(Some(name),
                 if name == "" || name !in s.procedures then [] else React(pdu, s.procedures[name]).sends, s.transactionCounter)
  {
    hide React, Emitted;
    NothingEmitted(s.outbox, Some(name), s.transactionCounter);
  }

  lemma ElsewhereUnseen(s: State, ev: Event, node: string, owner: nat -> string)
    requires Enabled(s, ev) && Owners(owner) && Owned(s, owner) && OneName(ev, owner)
    requires node != "" && !ReservedKey(node) && !Concerns(ev, node, owner)
    ensures SameView(Step(s, ev), s, node, owner)
  {
    hide Told;
    if IsSetup(ev) {
      hide SetupStep, Setup, Names, Emitted, ReservedKey;
      OwnedSetupStep(s, ev.conn, ev.pdu.setupIes, ev.pdu.encodes, owner);
      var c := Setup(s.connections[ev.conn].enodbName, ev.pdu.setupIes);
      ToldMore(s.outbox, Some(c.name), SetupSends(c, ev.pdu.encodes), s.transactionCounter, node);
    } else {
      StepEffect(s, ev);
      ElsewhereEffect(s, Step(s, ev), EffectOf(s, ev), node, owner) by {
        ElsewhereConn(s, ev, node, owner);
        ElsewhereProcedures(s, ev, node, owner);
        ElsewhereTold(s, ev, node, owner);
      }
    }
  }

  lemma ElsewhereTold(s: State, ev: Event, node: string, owner: nat -> string)
    requires Enabled(s, ev) && Owned(s, owner) && node != "" && !Concerns(ev, node, owner) && !IsSetup(ev)
    ensures Told(Step(s, ev).outbox, node) == Told(s.outbox, node)
  {
    hide Step, Caused, ReservedKey, Told, Emitted;
    StepEmits(s, ev);
    ToldMore(s.outbox, CausedName(s, ev), Caused(s, ev), s.transactionCounter, node);
  }

  /** An event that does not concern a node does not touch its connections. */
  lemma ElsewhereConn(s: State, ev: Event, node: string, owner: nat -> string)
    requires Enabled(s, ev) && Owned(s, owner) && !Concerns(ev, node, owner) && !IsSetup(ev)
    ensures EffectOf(s, ev).Untouched? || owner(EffectOf(s, ev).conn) != node
  {
    hide Forwards, ReservedKey;
  }

  lemma ElsewhereEffect(s: State, t: State, e: Effect, node: string, owner: nat -> string)
    requires Effected(s, t, e) && Owned(s, owner) && node != "" && !ReservedKey(node)
    requires e.Untouched? || owner(e.conn) != node
    requires (node in t.procedures <==> node in s.procedures) && (node in s.procedures ==> t.procedures[node] == s.procedures[node])
    requires Told(t.outbox, node) == Told(s.outbox, node)
    ensures SameView(t, s, node, owner)
  {
    hide ReservedKey, Told;
  }

  lemma ElsewhereProcedures(s: State, ev: Event, node: string, owner: nat -> string)
    requires Enabled(s, ev) && Owned(s, owner) && node != "" && !Concerns(ev, node, owner) && !IsSetup(ev)
    ensures node in Step(s, ev).procedures <==> node in s.procedures
    ensures node in s.procedures ==> Step(s, ev).procedures[node] == s.procedures[node]
  {
    hide Emitted, GatedStep, XappStep, ReservedKey;
    match ev {
      case NodePdu(conn, pdu) => GatedElsewhere(s, s.connections[conn].enodbName, pdu, node);
      case XappMessage(meid, kind, sent) => XappElsewhere(s, meid, kind, sent, node, owner);
      case _ =>
    }
  }

  lemma GatedElsewhere(s: State, name: string, pdu: Pdu, node: string)
    requires !pdu.E2setup? && name != node
    ensures var t := GatedStep(s, name, pdu);
            (node in t.procedures <==> node in s.procedures) && (node in s.procedures ==> t.procedures[node] == s.procedures[node])
  {
    hide React, GatedStep, Emitted;
    GatedEffect(s, name, pdu);
  }

  lemma XappElsewhere(s: State, meid: string, kind: XappKind, sent: bool, node: string, owner: nat -> string)
    requires Owned(s, owner) && node != "" && meid != node
    ensures var t := XappStep(s, meid, kind, sent);
            (node in t.procedures <==> node in s.procedures) && (node in s.procedures ==> t.procedures[node] == s.procedures[node])
  {
    hide Emitted, Before, After, Forwards, ReservedKey;
  }

  lemma ClearView(s: State, keys: seq<string>, node: string, owner: nat -> string)
    requires Enabled(s, ClearAll(keys)) && Owners(owner) && Owned(s, owner) && !ReservedKey(node)
    ensures var t := Step(s, ClearAll(keys));
            && t.procedures == s.procedures && t.registry == map[]
            && forall c: nat :: owner(c) == node ==>
                 && (c in t.connections <==> c in s.connections && !BoundTo(s, node, c))
                 && (c in t.connections ==> t.connections[c] == s.connections[c])
  {
    hide CloseAll, Closed;
    CloseAllKeeps(s, keys);
    ClearIs(s, keys);
    var t := Step(s, ClearAll(keys));
    forall c: nat | owner(c) == node
      ensures c in t.connections <==> c in s.connections && !BoundTo(s, node, c)
      ensures c in t.connections ==> t.connections[c] == s.connections[c]
    {
      CloseAllConnections(s, keys, c);
      ClosedExactly(s, keys, c);
      if BoundTo(s, node, c) {
        assert node in keys && Listed(s, keys, c);
      }
    }
  }

  /** A global clear reports the node's connection, if the registry leads to it, and nothing else under its name. */
  lemma {:induction false} ClearTold(s: State, keys: seq<string>, node: string, owner: nat -> string)
    requires Owned(s, owner) && node != "" && !ReservedKey(node) && forall i, j :: 0 <= i < j < |keys| ==> keys[i] != keys[j]
    ensures Told(CloseAll(s, keys).outbox, node)
         == Told(s.outbox, node) + if node in keys then FailureOf(s, node) else []
    decreases |keys|
  {
    hide CloseAll, Told, ReservedKey;
    CloseAllSteps(s, keys);
    if keys != [] {
      var t, rest := CloseOne(s, keys[0]), keys[1..];
      CloseOneTold(s, keys[0], node, owner);
      assert node in keys <==> node == keys[0] || node in rest;
      ClearTold(t, rest, node, owner);
    }
  }

  function FailureOf(s: State, node: string): seq<Send>
  {
    var conn := Connection(s, node);
    if conn.Some? && s.connections[conn.value].enodbName == node then [Send(RIC_SCTP_CONNECTION_FAILURE, None)] else []
  }

  lemma CloseOneTold(s: State, key: string, node: string, owner: nat -> string)
    requires Owned(s, owner) && node != "" && !ReservedKey(node)
    ensures var t := CloseOne(s, key);
            && Owned(t, owner) && Told(t.outbox, node) == Told(s.outbox, node) + (if key == node then FailureOf(s, node) else [])
            && (key != node ==> FailureOf(t, node) == FailureOf(s, node))
  {
    hide Told, Emitted, ReservedKey;
    var conn := Connection(s, key);
    if !ReservedKey(key) && conn.Some? {
      ToldMore(s.outbox, Some(s.connections[conn.value].enodbName), [Send(RIC_SCTP_CONNECTION_FAILURE, None)], s.transactionCounter, node);
    }
  }

  lemma OwnEmit(s: State, r: State, meid: Option<string>, sends: seq<Send>, node: string, owner: nat -> string)
    requires SameView(s, r, node, owner) && Alone(r, node)
    ensures SameView(Emit(s, meid, sends), Emit(r, meid, sends), node, owner) && Alone(Emit(r, meid, sends), node)
  {
    hide Emitted, Told;
    SameTold(s, r, meid, sends, node);
  }

  lemma OwnMarked(s: State, r: State, status: Option<ProcedureState>, node: string, owner: nat -> string)
    requires SameView(s, r, node, owner) && Alone(r, node)
    ensures SameView(Marked(s, node, status), Marked(r, node, status), node, owner) && Alone(Marked(r, node, status), node)
  {
  }

  lemma OwnForgotten(s: State, r: State, conn: nat, node: string, owner: nat -> string)
    requires SameView(s, r, node, owner) && Alone(r, node)
    requires conn in s.connections && owner(conn) == node && !ReservedKey(node) && ReservedKey(s.connections[conn].hostKey)
    ensures conn in r.connections
    ensures SameView(Forgotten(s, conn), Forgotten(r, conn), node, owner) && Alone(Forgotten(r, conn), node)
  {
    hide ReservedKey;
  }

  lemma OwnWritten(s: State, r: State, conn: nat, sent: bool, node: string, owner: nat -> string)
    requires SameView(s, r, node, owner) && Alone(r, node)
    requires conn in s.connections && owner(conn) == node && !ReservedKey(node) && ReservedKey(s.connections[conn].hostKey)
    ensures conn in r.connections
    ensures SameView(Written(s, conn, sent), Written(r, conn, sent), node, owner) && Alone(Written(r, conn, sent), node)
  {
    hide ReservedKey, Forgotten;
    OwnForgotten(s, r, conn, node, owner);
  }

  lemma OwnXapp(s: State, r: State, node: string, kind: XappKind, sent: bool, owner: nat -> string)
    requires Owned(s, owner) && !ReservedKey(node)
    requires SameView(s, r, node, owner) && Alone(r, node)
    ensures SameView(XappStep(s, node, kind, sent), XappStep(r, node, kind, sent), node, owner)
    ensures Alone(XappStep(r, node, kind, sent), node)
  {
    hide Emit, Before, After, Forwards, Marked, Written, ReservedKey;
    var conn := Connection(s, node);
    assert conn == Connection(r, node);
    OwnEmit(s, r, None, [Send(E2_TERM_KEEP_ALIVE_RESP, None)], node, owner);
    OwnEmit(s, r, None, [Send(RIC_HEALTH_CHECK_RESP, None)], node, owner);
    if conn.Some? {
      OwnForwarded(s, r, conn.value, node, kind, sent, owner);
    }
  }

  lemma OwnForwarded(s: State, r: State, conn: nat, node: string, kind: XappKind, sent: bool, owner: nat -> string)
    requires SameView(s, r, node, owner) && Alone(r, node)
    requires conn in s.connections && owner(conn) == node && !ReservedKey(node) && ReservedKey(s.connections[conn].hostKey)
    ensures conn in r.connections
    ensures var s', r' := Written(Marked(s, node, Before(kind)), conn, sent), Written(Marked(r, node, Before(kind)), conn, sent);
            && SameView(s', r', node, owner) && Alone(r', node)
            && SameView(Marked(s', node, After(kind)), Marked(r', node, After(kind)), node, owner)
            && Alone(Marked(r', node, After(kind)), node)
  {
    hide Before, After, ReservedKey, Written, SameView;
    var s0, r0 := Marked(s, node, Before(kind)), Marked(r, node, Before(kind));
    OwnMarked(s, r, Before(kind), node, owner);
    OwnWritten(s0, r0, conn, sent, node, owner);
    OwnMarked(Written(s0, conn, sent), Written(r0, conn, sent), After(kind), node, owner);
  }

  lemma OwnGated(s: State, r: State, name: string, pdu: Pdu, node: string, owner: nat -> string)
    requires !pdu.E2setup? && (name == "" || name == node) && node != ""
    requires SameView(s, r, node, owner) && Alone(r, node)
    ensures SameView(GatedStep(s, name, pdu), GatedStep(r, name, pdu), node, owner)
    ensures Alone(GatedStep(r, name, pdu), node)
  {
    hide React, GatedStep, Emitted, Told;
    GatedEffect(s, name, pdu);
    GatedEffect(r, name, pdu);
    var sends := if name == "" || name !in s.procedures then [] else React(pdu, s.procedures[name]).sends;
    SameTold(s, r, Some(name), sends, node);
  }

  lemma OwnSetup(s: State, r: State, conn: nat, ies: seq<SetupIe>, encodes: bool, node: string, owner: nat -> string)
    requires Owners(owner) && Owned(s, owner) && Owned(r, owner) && conn in s.connections && owner(conn) == node
    requires NamesOnly(ies, node) && SameView(s, r, node, owner) && Alone(r, node)
    ensures conn in r.connections
    ensures SameView(SetupStep(s, conn, ies, encodes), SetupStep(r, conn, ies, encodes), node, owner)
    ensures Alone(SetupStep(r, conn, ies, encodes), node)
  {
    hide SetupStep, Setup, Names, Emitted, Told, ReservedKey, SetupSends, WithSetup, Alone;
    OwnedSetupStep(s, conn, ies, encodes, owner);
    OwnedSetupStep(r, conn, ies, encodes, owner);
    var c := Setup(s.connections[conn].enodbName, ies);
    SameTold(s, r, Some(c.name), SetupSends(c, encodes), node);
    SetupSameView(s, r, SetupStep(s, conn, ies, encodes), SetupStep(r, conn, ies, encodes), conn, Names(ies) != [], c, node, owner);
  }

  /** The same setup on the same view leaves the same view. */
  lemma SetupSameView(s: State, r: State, t: State, u: State, conn: nat, named: bool, c: Collected, node: string, owner: nat -> string)
    requires SameView(s, r, node, owner) && Alone(r, node) && conn in s.connections && owner(conn) == node
    requires c.name == "" || c.name == node
    requires t.connections == s.connections[conn := s.connections[conn].(enodbName := if named then node else "")]
    requires u.connections == r.connections[conn := s.connections[conn].(enodbName := if named then node else "")]
    requires t.registry == if named then s.registry[node := conn] else s.registry
    requires u.registry == if named then r.registry[node := conn] else r.registry
    requires t.procedures == if c.transactionId >= 0 then WithSetup(s.procedures, c.name, c.transactionId) else s.procedures
    requires u.procedures == if c.transactionId >= 0 then WithSetup(r.procedures, c.name, c.transactionId) else r.procedures
    requires Told(t.outbox, node) == Told(u.outbox, node)
    ensures SameView(t, u, node, owner) && Alone(u, node)
  {
    hide Told;
  }

  lemma SameTold(s: State, r: State, meid: Option<string>, sends: seq<Send>, node: string)
    requires Told(s.outbox, node) == Told(r.outbox, node)
    ensures Told(s.outbox + Emitted(meid, sends, s.transactionCounter), node)
         == Told(r.outbox + Emitted(meid, sends, r.transactionCounter), node)
  {
    hide Emitted, Told;
    ToldMore(s.outbox, meid, sends, s.transactionCounter, node);
    ToldMore(r.outbox, meid, sends, r.transactionCounter, node);
  }

  lemma OwnLost(s: State, r: State, conn: nat, fdOpen: bool, node: string, owner: nat -> string)
    requires Owned(s, owner) && node != "" && !ReservedKey(node) && conn in s.connections && owner(conn) == node
    requires SameView(s, r, node, owner) && Alone(r, node)
    ensures conn in r.connections
    ensures SameView(DisconnectStep(s, conn, fdOpen), DisconnectStep(r, conn, fdOpen), node, owner)
    ensures Alone(DisconnectStep(r, conn, fdOpen), node)
  {
    hide Emitted, Forgotten, ReservedKey;
    var name := s.connections[conn].enodbName;
    OwnEmit(s, r, Some(name), [Send(RIC_SCTP_CONNECTION_FAILURE, None)], node, owner);
    OwnForgotten(FailureNotice(s, conn), FailureNotice(r, conn), conn, node, owner);
  }

  lemma OwnWriteReady(s: State, r: State, conn: nat, soError: bool, epollOk: bool, sent: bool, node: string, owner: nat -> string)
    requires Owned(s, owner) && node != "" && !ReservedKey(node) && conn in s.connections && owner(conn) == node
    requires SameView(s, r, node, owner) && Alone(r, node)
    ensures conn in r.connections
    ensures SameView(WriteReadyStep(s, conn, soError, epollOk, sent), WriteReadyStep(r, conn, soError, epollOk, sent), node, owner)
    ensures Alone(WriteReadyStep(r, conn, soError, epollOk, sent), node)
  {
    hide Emit, Forgotten, Written, ReservedKey;
    var cu := s.connections[conn].(isConnected := true);
    var s', r' := s.(connections := s.connections[conn := cu]), r.(connections := r.connections[conn := cu]);
    if soError {
      OwnEmit(s, r, Some(cu.enodbName), [Send(RIC_SCTP_CONNECTION_FAILURE, None)], node, owner);
    } else {
      OwnForgotten(s', r', conn, node, owner);
      OwnWritten(s', r', conn, sent, node, owner);
    }
  }

  lemma OwnClear(s: State, r: State, keys: seq<string>, node: string, owner: nat -> string)
    requires Enabled(s, ClearAll(keys)) && Owners(owner) && Owned(s, owner) && Owned(r, owner) && node != "" && !ReservedKey(node)
    requires SameView(s, r, node, owner) && Alone(r, node)
    ensures var share := Share(ClearAll(keys), node);
            && Enabled(r, share) && SameView(Step(s, ClearAll(keys)), Step(r, share), node, owner)
            && Alone(Step(r, share), node)
  {
    var share := Share(ClearAll(keys), node);
    OwnListing(s, r, keys, node, owner);
    OwnClearTold(s, r, keys, node, owner);
    hide Step, Enabled, Told;
    ClearView(s, keys, node, owner);
    ClearView(r, share.keys, node, owner);
  }

  lemma OwnClearTold(s: State, r: State, keys: seq<string>, node: string, owner: nat -> string)
    requires Enabled(s, ClearAll(keys)) && Owned(s, owner) && Owned(r, owner) && node != "" && !ReservedKey(node)
    requires SameView(s, r, node, owner) && Enabled(r, Share(ClearAll(keys), node))
    ensures Told(Step(s, ClearAll(keys)).outbox, node) == Told(Step(r, Share(ClearAll(keys), node)).outbox, node)
  {
    hide CloseAll, Told, ReservedKey;
    ClearIs(s, keys);
    ClearIs(r, Share(ClearAll(keys), node).keys);
    ClearTold(s, keys, node, owner);
    ClearTold(r, Share(ClearAll(keys), node).keys, node, owner);
    assert FailureOf(s, node) == FailureOf(r, node);
  }

  lemma OwnListing(s: State, r: State, keys: seq<string>, node: string, owner: nat -> string)
    requires Enabled(s, ClearAll(keys)) && SameView(s, r, node, owner) && Alone(r, node)
    ensures Enabled(r, Share(ClearAll(keys), node))
  {
    assert node in keys <==> node in (set k | k in keys);
  }

  lemma OwnStep(s: State, r: State, ev: Event, node: string, owner: nat -> string)
    requires Enabled(s, ev) && Owners(owner) && Owned(s, owner) && Owned(r, owner) && OneName(ev, owner)
    requires node != "" && !ReservedKey(node) && Concerns(ev, node, owner)
    requires SameView(s, r, node, owner) && Alone(r, node)
    ensures Enabled(r, Share(ev, node)) && SameView(Step(s, ev), Step(r, Share(ev, node)), node, owner)
    ensures Alone(Step(r, Share(ev, node)), node)
  {
    hide SetupStep, GatedStep, XappStep, WriteReadyStep, Forgotten, ReservedKey, ClearStep;
    match ev {
      case ClearAll(keys) => OwnClear(s, r, keys, node, owner);
      case NodePdu(conn, pdu) =>
        if pdu.E2setup? {
          OwnSetup(s, r, conn, pdu.setupIes, pdu.encodes, node, owner);
        } else {
          OwnGated(s, r, s.connections[conn].enodbName, pdu, node, owner);
        }
      case XappMessage(meid, kind, sent) => OwnXapp(s, r, node, kind, sent, owner);
      case Disconnect(conn, fdOpen) => OwnLost(s, r, conn, fdOpen, node, owner);
      case PollError(conn) => OwnLost(s, r, conn, true, node, owner);
      case WriteReady(conn, soError, epollOk, sent) => OwnWriteReady(s, r, conn, soError, epollOk, sent, node, owner);
      case Accept(_, _) =>
      case TermInit =>
    }
  }

  /** A run of one node's events alone. */
  function Replay(base: int, evs: seq<Event>): State
  {
    if evs == [] then Initial(base)
    else
      var s, last := Replay(base, evs[..|evs| - 1]), evs[|evs| - 1];
      if Enabled(s, last) then Step(s, last) else s
  }

  predicate Replayable(base: int, evs: seq<Event>)
  {
    forall i :: 0 <= i < |evs| ==> Enabled(Replay(base, evs[..i]), evs[i])
  }

  /** After any interleaved run, the node's table entry, registry entry and connections, and the messages sent under
      its name, are those of replaying only its own events and its share of the global clears; and that replay is
      itself a run, whatever its first transaction id. */
  lemma {:induction false} Independence(
      states: seq<State>, evs: seq<Event>, k: nat, base: int, base': int, node: string, owner: nat -> string)
    requires IsRun(states, evs) && k <= |evs| && states[0] == Initial(base) && Owners(owner) && AllOneName(evs, owner)
    requires node != "" && !ReservedKey(node)
    ensures var own := OwnEvents(evs[..k], node, owner);
            && SameView(states[k], Replay(base', own), node, owner) && Replayable(base', own)
            && Owned(Replay(base', own), owner) && Alone(Replay(base', own), node)
  {
    hide Step, Enabled, OneName, Concerns, Share;
    if k > 0 {
      hide Owned, SameView;
      var s, ev := states[k - 1], evs[k - 1];
      Independence(states, evs, k - 1, base, base', node, owner);
      RunOwned(states, evs, k - 1, base, owner);
      assert evs[..k][..k - 1] == evs[..k - 1];
      var before := OwnEvents(evs[..k - 1], node, owner);
      if Concerns(ev, node, owner) {
        OwnStep(s, Replay(base', before), ev, node, owner);
        ShareOneName(ev, node, owner);
        StepOwned(Replay(base', before), Share(ev, node), owner);
        ReplayMore(base', before, Share(ev, node));
      } else {
        ElsewhereUnseen(s, ev, node, owner);
        SameTransitive(states[k], s, Replay(base', before), node, owner);
      }
    }
  }

  lemma SameTransitive(a: State, b: State, c: State, node: string, owner: nat -> string)
    requires SameView(a, b, node, owner) && SameView(b, c, node, owner)
    ensures SameView(a, c, node, owner)
  {
  }

  lemma ShareOneName(ev: Event, node: string, owner: nat -> string)
    requires OneName(ev, owner)
    ensures OneName(Share(ev, node), owner)
  {
  }

  lemma ReplayMore(base: int, before: seq<Event>, ev: Event)
    requires Replayable(base, before) && Enabled(Replay(base, before), ev)
    ensures Replayable(base, before + [ev]) && Replay(base, before + [ev]) == Step(Replay(base, before), ev)
  {
    hide Step, Enabled;
    var all := before + [ev];
    assert all[..|before|] == before;
    forall i | 0 <= i < |all| ensures Enabled(Replay(base, all[..i]), all[i]) {
      if i < |before| {
        assert all[..i] == before[..i];
      }
    }
  }
}
