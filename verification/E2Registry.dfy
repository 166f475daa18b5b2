/** The connection registry: when every key leads to the live connection that bears it, and when the
    events of one node leave another node alone. */
module E2Registry {
  import opened Text
  import opened ProcedureTable
  import opened E2Protocol
  import opened E2Runs

  /** Every key of the registry leads to a live connection of that name. */
  predicate Consistent(s: State)
  {
    forall key :: key in s.registry ==> s.registry[key] in s.connections && s.connections[s.registry[key]].enodbName == key
  }

  // ----- what an event does to the connections -----

  datatype Effect = Untouched | Opens(conn: nat, cu: Cu) | Connects(conn: nat) | Frees(conn: nat)

  predicate IsSetup(ev: Event) { ev.NodePdu? && ev.pdu.E2setup? }

  function EffectOf(s: State, ev: Event): Effect
    requires Enabled(s, ev) && !IsSetup(ev) && !ev.ClearAll?
  {
    match ev
    case Accept(conn, hostKey) => Opens(conn, Cu("", hostKey, false))
    case NodePdu(_, _) => Untouched
    case Disconnect(conn, fdOpen) => if fdOpen then Frees(conn) else Untouched
    case PollError(conn) => Frees(conn)
    case WriteReady(conn, soError, epollOk, sent) =>
      if soError then Untouched else if epollOk && sent then Connects(conn) else Frees(conn)
    case XappMessage(meid, kind, sent) =>
      var conn := Connection(s, meid);
      if conn.Some? && Forwards(kind) && !sent && s.connections[conn.value].isConnected then Frees(conn.value) else Untouched
    case TermInit => Untouched
  }

  predicate Effected(s: State, t: State, e: Effect)
  {
    match e
    case Untouched => t.registry == s.registry && t.connections == s.connections
    case Opens(conn, cu) => t.registry == s.registry && t.connections == s.connections[conn := cu] && conn !in s.connections
    case Connects(conn) =>
      && conn in s.connections && t.registry == s.registry
      && t.connections == s.connections[conn := s.connections[conn].(isConnected := true)]
    case Frees(conn) =>
      && conn in s.connections && t.connections == s.connections - {conn}
      && t.registry == s.registry - {s.connections[conn].hostKey, s.connections[conn].enodbName}
  }

  lemma StepEffect(s: State, ev: Event)
    requires Enabled(s, ev) && !IsSetup(ev) && !ev.ClearAll?
    ensures Effected(s, Step(s, ev), EffectOf(s, ev))
  {
    hide React, Emitted, SetupStep, Before, After;
    if ev.WriteReady? {
      var cs := s.connections;
      assert cs[ev.conn := cs[ev.conn].(isConnected := true)] - {ev.conn} == cs - {ev.conn};
    }
  }

  // ----- one E2setup -----

  lemma {:induction false} BindKeys(registry: map<string, nat>, keys: seq<string>, conn: nat, key: string)
    ensures key in Bind(registry, keys, conn) <==> key in registry || key in keys
    ensures key in keys ==> Bind(registry, keys, conn)[key] == conn
    ensures key !in keys && key in registry ==> Bind(registry, keys, conn)[key] == registry[key]
    decreases |keys|
  {
    if keys != [] {
      BindKeys(registry[keys[0] := conn], keys[1..], conn, key);
    }
  }

  /** The usable node ids of a request, up to the first refused one. */
  function Names(ies: seq<SetupIe>): seq<string>
    decreases |ies|
  {
    if ies == [] then []
    else
      match ies[0]
      case NodeId(None) => []
      case NodeId(Some(built)) => [built] + Names(ies[1..])
      case SetupTransactionId(_) => Names(ies[1..])
      case OtherSetupIe => Names(ies[1..])
  }

  function LastName(names: seq<string>): string { if names == [] then "" else names[|names| - 1] }

  /** Each name written over what the one before it left. */
  function Laid(older: string, names: seq<string>): seq<string>
    decreases |names|
  {
    if names == [] then [] else [Overlay(older, names[0])] + Laid(Overlay(older, names[0]), names[1..])
  }

  /** The collector binds the names laid over each other, and gives the connection the last one. */
  lemma {:induction false} CollectNames(c: Collected, ies: seq<SetupIe>)
    ensures var d, names := Collect(c, ies), Names(ies);
            && d.keys == c.keys + Laid(c.name, names)
            && d.peerName == (if names == [] then c.peerName else LastName(names))
            && d.name == (if names == [] then c.name else LastName(Laid(c.name, names)))
    decreases |ies|
  {
    hide Overlay;
    if ies != [] {
      match ies[0] {
        case NodeId(None) =>
        case NodeId(Some(built)) =>
          var name := Overlay(c.name, built);
          CollectNames(c.(peerName := built, name := name, keys := c.keys + [name]), ies[1..]);
          LaidCons(c.keys, c.name, built, Names(ies[1..]));
        case SetupTransactionId(id) => CollectNames(c.(transactionId := id), ies[1..]);
        case OtherSetupIe => CollectNames(c, ies[1..]);
      }
    }
  }

  lemma LaidCons(keys: seq<string>, older: string, built: string, rest: seq<string>)
    ensures var name, names := Overlay(older, built), [built] + rest;
            && keys + [name] + Laid(name, rest) == keys + Laid(older, names)
            && LastName(names) == (if rest == [] then built else LastName(rest))
            && LastName(Laid(older, names)) == (if rest == [] then name else LastName(Laid(name, rest)))
  {
    var names := [built] + rest;
    assert names[1..] == rest;
    assert rest != [] ==> Laid(Overlay(older, built), rest) != [];
  }

  predicate PrefixesOf(names: seq<string>, last: string) { forall i :: 0 <= i < |names| ==> names[i] <= last }

  lemma {:induction false} LaidEqual(older: string, names: seq<string>, last: string)
    ensures (forall i :: 0 <= i < |Laid(older, names)| ==> Laid(older, names)[i] == last)
       <==> PrefixesOf(names, last) && (names == [] || Overlay(older, names[0]) == last)
    decreases |names|
  {
    if names != [] {
      var name, rest := Overlay(older, names[0]), names[1..];
      LaidEqual(name, rest, last);
      ConsAll(name, Laid(name, rest), last);
      assert PrefixesOf(names, last) <==> names[0] <= last && PrefixesOf(rest, last) by {
        assert forall i :: 1 <= i < |names| ==> names[i] == rest[i - 1];
        assert forall i :: 0 <= i < |rest| ==> rest[i] == names[i + 1];
      }
      assert rest != [] && PrefixesOf(rest, last) ==> rest[0] <= last && Overlay(last, rest[0]) == last;
      assert name == last ==> names[0] <= last;
      assert Laid(older, names) == [name] + Laid(name, rest);
      assert (forall i :: 0 <= i < |Laid(older, names)| ==> Laid(older, names)[i] == last)
        <==> name == last && forall i :: 0 <= i < |Laid(name, rest)| ==> Laid(name, rest)[i] == last;
      assert name == last ==> (PrefixesOf(names, last) <==> PrefixesOf(rest, last));
    }
  }

  lemma ConsAll(name: string, rest: seq<string>, last: string)
    ensures (forall i :: 0 <= i < |[name] + rest| ==> ([name] + rest)[i] == last)
       <==> name == last && forall i :: 0 <= i < |rest| ==> rest[i] == last
  {
    assert forall i :: 0 <= i < |rest| ==> rest[i] == ([name] + rest)[i + 1];
    assert ([name] + rest)[0] == name;
  }

  /** A connection that is bound gets its old name again as the last one; the first name, written over the old one,
      already is the last, and every name is a prefix of the last. */
  predicate KeepsName(s: State, conn: nat, ies: seq<SetupIe>)
    requires conn in s.connections
  {
    var older, names := s.connections[conn].enodbName, Names(ies);
    && (BoundTo(s, older, conn) ==> LastName(names) == older)
    && (names == [] || Overlay(older, names[0]) == LastName(names))
    && PrefixesOf(names, LastName(names))
  }

  /** For any request, accepted or not: exactly when a setup keeps the registry consistent. */
  lemma SetupConsistency(s: State, conn: nat, ies: seq<SetupIe>, encodes: bool)
    requires conn in s.connections && Consistent(s)
    ensures Consistent(SetupStep(s, conn, ies, encodes)) <==> KeepsName(s, conn, ies)
  {
    hide Collect, Names, Laid, LastName, SetupStep, Consistent;
    var older, names := s.connections[conn].enodbName, Names(ies);
    SetupKeys(s, conn, ies, encodes);
    CollectNames(Collected("", older, [], -1), ies);
    LaidEqual(older, names, Setup(older, ies).peerName);
    NoNames(older);
    assert Setup(older, ies).keys == Laid(older, names) && Setup(older, ies).peerName == LastName(names);
  }

  lemma SetupKeys(s: State, conn: nat, ies: seq<SetupIe>, encodes: bool)
    requires conn in s.connections && Consistent(s)
    ensures var older, c := s.connections[conn].enodbName, Setup(s.connections[conn].enodbName, ies);
            Consistent(SetupStep(s, conn, ies, encodes)) <==>
              (BoundTo(s, older, conn) ==> c.peerName == older) && forall i :: 0 <= i < |c.keys| ==> c.keys[i] == c.peerName
  {
    hide Setup, Bind, Emitted;
    var older := s.connections[conn].enodbName;
    var c := Setup(older, ies);
    var t := SetupStep(s, conn, ies, encodes);
    forall key ensures key in t.registry <==> key in s.registry || key in c.keys
               ensures key in c.keys ==> t.registry[key] == conn
               ensures key !in c.keys && key in s.registry ==> t.registry[key] == s.registry[key]
    {
      BindKeys(s.registry, c.keys, conn, key);
    }
    assert t.connections == s.connections[conn := s.connections[conn].(enodbName := c.peerName)];
    if Consistent(t) {
      forall i | 0 <= i < |c.keys| ensures c.keys[i] == c.peerName {
        assert c.keys[i] in t.registry;
      }
      if BoundTo(s, older, conn) {
        assert older in t.registry;
      }
    }
  }

  lemma NoNames(older: string)
    ensures LastName([]) == "" && Laid(older, []) == []
  {
  }

  /** The IEs of E2setupRequest in the order that E2AP requires, with all that are mandatory. */
  function Conforming(built: string, id: int): seq<SetupIe>
  {
    [SetupTransactionId(id), NodeId(Some(built)), OtherSetupIe, OtherSetupIe]
  }

  /** What that is for a request with one usable node id, as a conforming one has, and for one with none. */
  lemma KeepsNameMeans(s: State, conn: nat, ies: seq<SetupIe>, built: string, id: int)
    requires conn in s.connections
    ensures Names(Conforming(built, id)) == [built]
    ensures var older := s.connections[conn].enodbName;
            && (Names(ies) == [built] ==>
                  (KeepsName(s, conn, ies) <==> |older| <= |built| && (BoundTo(s, older, conn) ==> built == older)))
            && (Names(ies) == [] ==> (KeepsName(s, conn, ies) <==> (BoundTo(s, older, conn) ==> older == "")))
  {
    ConformingSetup("", built, id);
    var older := s.connections[conn].enodbName;
    assert Overlay(older, built) == built <==> |older| <= |built|;
  }

  lemma ConformingSetup(older: string, built: string, id: int)
    ensures Names(Conforming(built, id)) == [built]
    ensures Setup(older, Conforming(built, id)) == Collected(built, Overlay(older, built), [Overlay(older, built)], id)
  {
    hide Overlay;
    var ies := Conforming(built, id);
    var rest, ends, end := ies[1..], ies[2..], ies[3..];
    assert rest[1..] == ends && ends[1..] == end && end[1..] == [];
    assert Names(end) == Names([]) == [] && Names(ends) == Names(end);
    var c := Collected(built, Overlay(older, built), [Overlay(older, built)], id);
    assert Collect(c, ends) == Collect(c, end) == Collect(c, []);
    assert [] + [Overlay(older, built)] == [Overlay(older, built)];
    assert Collect(Collected("", older, [], id), rest) == Collect(c, ends);
  }

  function Request(conn: nat, built: string, id: int): Event { NodePdu(conn, E2setup(Conforming(built, id), true)) }

  /** The state of a termination whose only events so far are a connection and its E2setup. */
  function AfterSetup(base: int, conn: nat, hostKey: string, built: string, id: int): State
    requires "host:" <= hostKey
  {
    Step(Step(Initial(base), Accept(conn, hostKey)), Request(conn, built, id))
  }

  lemma AfterSetupIs(base: int, conn: nat, hostKey: string, built: string, id: int)
    requires "host:" <= hostKey
    ensures var s := AfterSetup(base, conn, hostKey, built, id);
            && s.registry == map[built := conn] && s.connections == map[conn := Cu(built, hostKey, false)]
            && s.procedures == if id < 0 then map[] else map[built := Handling(SETUP_ONGOING, id)]
  {
    hide Collect, Emitted;
    ConformingSetup("", built, id);
    assert Overlay("", built) == built;
    BindOne(map[], built, conn);
  }

  lemma BindOne(registry: map<string, nat>, key: string, conn: nat)
    ensures Bind(registry, [key], conn) == registry[key := conn]
  {
    assert [key][1..] == [];
  }

  /** A run of three events: a connection, its E2setup, and a second E2setup under any other name leave the first
      key bound to a connection that no longer bears it. */
  lemma RenamedConnection(base: int, conn: nat, hostKey: string, first: string, second: string, id: int, id': int)
    requires "host:" <= hostKey && first != second
    ensures var s := AfterSetup(base, conn, hostKey, first, id);
            && Consistent(s) && Enabled(s, Request(conn, second, id'))
            && var t := Step(s, Request(conn, second, id'));
               && BoundTo(t, first, conn) && conn in t.connections && t.connections[conn].enodbName == second && !Consistent(t)
  {
    hide AfterSetup, Collect, Emitted, Overlay, Bind;
    var s := AfterSetup(base, conn, hostKey, first, id);
    AfterSetupIs(base, conn, hostKey, first, id);
    ConformingSetup(first, second, id');
    BindOne(s.registry, Overlay(first, second), conn);
  }

  /** A run of three events: the second E2setup of a connection, with another transaction id, leaves the first id
      stored. */
  lemma RepeatedSetupKeepsId(base: int, conn: nat, hostKey: string, name: string, id: int, id': int)
    requires "host:" <= hostKey && id >= 0 && id' >= 0 && id != id'
    ensures var s := AfterSetup(base, conn, hostKey, name, id);
            && Enabled(s, Request(conn, name, id')) && AcceptsSetup(s, Request(conn, name, id'), name)
            && var t := Step(s, Request(conn, name, id'));
               name in t.procedures && t.procedures[name].transactionId == id
  {
    hide AfterSetup, Collect, Emitted, Overlay, Bind;
    AfterSetupIs(base, conn, hostKey, name, id);
    ConformingSetup(name, name, id');
    assert Overlay(name, name) == name by { OverlaySame(name); }
  }

  lemma OverlaySame(name: string)
    ensures Overlay(name, name) == name
  {
  }

  /** No other event breaks the registry. */
  lemma OtherEventsConsistent(s: State, ev: Event)
    requires Enabled(s, ev) && Consistent(s) && !IsSetup(ev)
    ensures Consistent(Step(s, ev))
  {
    if !ev.ClearAll? {
      StepEffect(s, ev);
      hide Step, Enabled, EffectOf;
      assert Consistent(Step(s, ev));
    }
  }

  /** A lost connection loses its table entry always; its key and the connection itself go exactly when the
      descriptor is still open, as it is on a poll error. */
  lemma LostConnectionIsForgotten(s: State, ev: Event)
    requires Enabled(s, ev) && Consistent(s) && (ev.PollError? || ev.Disconnect?)
    ensures var t, name, open := Step(s, ev), s.connections[ev.conn].enodbName, ev.PollError? || ev.fdOpen;
            && name !in t.procedures
            && (ev.conn !in t.connections <==> open)
            && (name in t.registry <==> name in s.registry && !open)
            && ((forall key :: !BoundTo(t, key, ev.conn)) <==> open || !BoundTo(s, name, ev.conn))
  {
    hide Emitted;
    StepEffect(s, ev);
    var t, name := Step(s, ev), s.connections[ev.conn].enodbName;
    forall key | BoundTo(t, key, ev.conn) ensures key == name && BoundTo(s, name, ev.conn) && ev.Disconnect? && !ev.fdOpen {
      assert key in s.registry && t.registry[key] == s.registry[key];
    }
    if BoundTo(s, name, ev.conn) && ev.Disconnect? && !ev.fdOpen {
      assert BoundTo(t, name, ev.conn);
    }
  }

  /** A run of three events: a connection, its accepted E2setup, and a loss whose descriptor is already closed
      leave no table entry, but the key still leads to the live connection. */
  lemma ClosedDescriptorKeepsKey(base: int, conn: nat, hostKey: string, name: string, id: int)
    requires "host:" <= hostKey && id >= 0
    ensures var s := AfterSetup(base, conn, hostKey, name, id);
            && name in s.procedures && Enabled(s, Disconnect(conn, false))
            && var t := Step(s, Disconnect(conn, false));
               name !in t.procedures && Connection(t, name) == Some(conn)
  {
    hide AfterSetup, Emitted;
    AfterSetupIs(base, conn, hostKey, name, id);
  }

  // ----- each connection under one node's name -----

  /** The setup requests on a connection build no other name than its owner's. Refused ids, and requests without
      a node id, are no second name. */
  predicate OneName(ev: Event, owner: nat -> string)
  {
    IsSetup(ev) ==> NamesOnly(ev.pdu.setupIes, owner(ev.conn))
  }

  predicate NamesOnly(ies: seq<SetupIe>, owner: string)
  {
    forall ie :: ie in ies && ie.NodeId? && ie.built.Some? ==> ie.built.value == owner
  }

  /** Such a request, and it builds the name. */
  predicate Identifies(ies: seq<SetupIe>, owner: string) { NamesOnly(ies, owner) && Names(ies) != [] }

  predicate AllIdentify(evs: seq<Event>, owner: nat -> string)
  {
    forall i :: 0 <= i < |evs| && IsSetup(evs[i]) ==> Identifies(evs[i].pdu.setupIes, owner(evs[i].conn))
  }

  ghost predicate Owners(owner: nat -> string)
  {
    forall c: nat :: owner(c) != "" && !ReservedKey(owner(c))
  }

  predicate AllOneName(evs: seq<Event>, owner: nat -> string)
  {
    forall i :: 0 <= i < |evs| ==> OneName(evs[i], owner)
  }

  /** A connection has no name yet or its owner's, and a key leads to a connection of that owner. */
  predicate Owned(s: State, owner: nat -> string)
  {
    && (forall c: nat :: c in s.connections ==> s.connections[c].enodbName == "" || s.connections[c].enodbName == owner(c))
    && (forall c: nat :: c in s.connections ==> ReservedKey(s.connections[c].hostKey))
    && (forall key :: key in s.registry ==> owner(s.registry[key]) == key)
  }

  lemma {:induction false} NamesOwned(ies: seq<SetupIe>, owner: string)
    requires NamesOnly(ies, owner)
    ensures forall i :: 0 <= i < |Names(ies)| ==> Names(ies)[i] == owner
    decreases |ies|
  {
    if ies != [] {
      assert ies[0] in ies;
      NamesOwned(ies[1..], owner);
    }
  }

  /** Under its owner's ids, a setup knows no other name. */
  lemma SetupOwned(older: string, ies: seq<SetupIe>, owner: string)
    requires NamesOnly(ies, owner) && owner != "" && (older == "" || older == owner)
    ensures var c := Setup(older, ies);
            && (c.peerName == if Names(ies) == [] then "" else owner) && (c.name == if Names(ies) == [] then older else owner)
            && (c.keys == [] <==> Names(ies) == []) && forall i :: 0 <= i < |c.keys| ==> c.keys[i] == owner
  {
    hide Collect, Names;
    CollectNames(Collected("", older, [], -1), ies);
    NamesOwned(ies, owner);
    LaidEqual(older, Names(ies), owner);
    assert Overlay("", owner) == owner && Overlay(owner, owner) == owner;
  }

  lemma BindOwned(registry: map<string, nat>, keys: seq<string>, conn: nat, owner: string)
    requires forall i :: 0 <= i < |keys| ==> keys[i] == owner
    ensures Bind(registry, keys, conn) == if keys == [] then registry else registry[owner := conn]
  {
    hide Bind;
    var bound := if keys == [] then registry else registry[owner := conn];
    assert keys != [] ==> keys[0] in keys;
    forall key ensures key in Bind(registry, keys, conn) <==> key in bound
               ensures key in bound ==> Bind(registry, keys, conn)[key] == bound[key]
    {
      BindKeys(registry, keys, conn, key);
    }
  }

  /** The whole effect of a setup on a connection that only ever names its owner: what becomes of the connection's
      name, its key and the table, and what is sent. */
  lemma OwnedSetupStep(s: State, conn: nat, ies: seq<SetupIe>, encodes: bool, owner: nat -> string)
    requires Owners(owner) && Owned(s, owner) && conn in s.connections && NamesOnly(ies, owner(conn))
    ensures var t, c := SetupStep(s, conn, ies, encodes), Setup(s.connections[conn].enodbName, ies);
            && (c.name == "" || c.name == owner(conn))
            && t.connections == s.connections[conn := s.connections[conn].(enodbName := if Names(ies) == [] then "" else owner(conn))]
            && t.registry == (if Names(ies) == [] then s.registry else s.registry[owner(conn) := conn])
            && t.procedures == (if c.transactionId >= 0 then WithSetup(s.procedures, c.name, c.transactionId) else s.procedures)
            && t.outbox == s.outbox + Emitted(Some(c.name), SetupSends(c, encodes), s.transactionCounter)
  {
    hide Setup, Bind, Emitted, Names;
    SetupOwned(s.connections[conn].enodbName, ies, owner(conn));
    BindOwned(s.registry, Setup(s.connections[conn].enodbName, ies).keys, conn, owner(conn));
    NothingEmitted(s.outbox, Some(Setup(s.connections[conn].enodbName, ies).name), s.transactionCounter);
  }

  function SetupSends(c: Collected, encodes: bool): seq<Send>
  {
    if encodes && c.transactionId >= 0 then [Send(RIC_E2_SETUP_REQ, None)] else []
  }

  lemma StepOwned(s: State, ev: Event, owner: nat -> string)
    requires Enabled(s, ev) && Owners(owner) && Owned(s, owner) && OneName(ev, owner)
    ensures Owned(Step(s, ev), owner)
  {
    if IsSetup(ev) {
      hide SetupStep, Setup, Names;
      OwnedSetupStep(s, ev.conn, ev.pdu.setupIes, ev.pdu.encodes, owner);
    } else if ev.ClearAll? {
      ClearOwned(s, ev.keys, owner);
    } else {
      StepEffect(s, ev);
      EffectOwned(s, Step(s, ev), EffectOf(s, ev), owner) by {
        assert ev.Accept? ==> ReservedKey(ev.hostKey);
      }
    }
  }

  lemma EffectOwned(s: State, t: State, e: Effect, owner: nat -> string)
    requires Effected(s, t, e) && Owned(s, owner) && (e.Opens? ==> e.cu.enodbName == "" && ReservedKey(e.cu.hostKey))
    ensures Owned(t, owner)
  {
    hide ReservedKey;
  }

  lemma ClearOwned(s: State, keys: seq<string>, owner: nat -> string)
    requires Enabled(s, ClearAll(keys)) && Owned(s, owner)
    ensures Owned(Step(s, ClearAll(keys)), owner)
  {
    hide CloseAll, ReservedKey;
    forall c: nat | c in CloseAll(s, keys).connections
      ensures c in s.connections && CloseAll(s, keys).connections[c] == s.connections[c]
    {
      CloseAllConnections(s, keys, c);
    }
  }
}
