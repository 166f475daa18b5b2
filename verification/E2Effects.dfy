/** What each event does, said event by event with the messages and states themselves; and where each message of a
    run comes from. */
module E2Effects {
  import opened Text
  import opened ProcedureTable
  import opened E2Protocol
  import opened E2Runs
  import opened E2Registry

  // ----- ways in which one state follows another -----

  predicate SameLinks(s: State, t: State) { t.registry == s.registry && t.connections == s.connections }

  predicate Silent(s: State, t: State) { t.outbox == s.outbox && t.transactionCounter == s.transactionCounter }

  /** One message more, with the next transaction id. */
  predicate Tells(s: State, t: State, mtype: RmrType, meid: Option<string>, subId: Option<int>)
  {
    && t.outbox == s.outbox + [Rmr(mtype, meid, subId, s.transactionCounter)]
    && t.transactionCounter == s.transactionCounter + 1
  }

  /** The entry of that name, if there is one, is in that state and keeps its transaction id; nothing else is touched. */
  predicate Leaves(s: State, t: State, name: string, status: ProcedureState)
  {
    t.procedures == if name in s.procedures then s.procedures[name := Handling(status, s.procedures[name].transactionId)]
                    else s.procedures
  }

  /** The connection, its keys and the entry of its name are gone. */
  predicate Loses(s: State, t: State, conn: nat)
    requires conn in s.connections
  {
    var cu := s.connections[conn];
    && t.procedures == (map name | name in s.procedures && name != cu.enodbName :: s.procedures[name])
    && t.registry == (map key | key in s.registry && key != cu.enodbName && key != cu.hostKey :: s.registry[key])
    && t.connections == (map c | c in s.connections && c != conn :: s.connections[c])
  }

  // ----- messages of nodes -----

  predicate FirstRequestAt(ies: seq<RequestIe>, i: int)
  {
    0 <= i < |ies| && ies[i].RequestId? && forall j :: 0 <= j < i ==> !ies[j].RequestId?
  }

  lemma {:induction false} FirstRequestExactly(ies: seq<RequestIe>)
    ensures FirstRequest(ies).None? <==> forall i :: 0 <= i < |ies| ==> !ies[i].RequestId?
    ensures FirstRequest(ies).Some? ==> exists i :: FirstRequestAt(ies, i) && FirstRequest(ies) == Some(ies[i].instance)
  {
    if ies != [] && !ies[0].RequestId? {
      FirstRequestExactly(ies[1..]);
      assert forall i :: 1 <= i < |ies| ==> ies[i] == ies[1..][i - 1];
      if FirstRequest(ies[1..]).Some? {
        var i :| FirstRequestAt(ies[1..], i) && FirstRequest(ies[1..]) == Some(ies[1..][i].instance);
        assert FirstRequestAt(ies, i + 1);
      }
    } else if ies != [] {
      assert FirstRequestAt(ies, 0);
    }
  }

  lemma FirstRequestOnce(ies: seq<RequestIe>, i: int)
    requires FirstRequestAt(ies, i)
    ensures FirstRequest(ies) == Some(ies[i].instance)
  {
    FirstRequestExactly(ies);
    var j :| FirstRequestAt(ies, j) && FirstRequest(ies) == Some(ies[j].instance);
    assert !(i < j) && !(j < i);
  }

  /** The first RICrequestID goes on with its instance as subscription id, and the entry is left in one state; without
      any, nothing goes on, and the entry is left as the last argument says. */
  ghost predicate ForwardsFirst(s: State, t: State, name: string, ies: seq<RequestIe>, mtype: RmrType,
                                after: Option<ProcedureState>, otherwise: Option<ProcedureState>)
  {
    && (forall i :: FirstRequestAt(ies, i) ==>
          Tells(s, t, mtype, Some(name), Some(ies[i].instance)) && LeavesAt(s, t, name, after))
    && ((forall i :: 0 <= i < |ies| ==> !ies[i].RequestId?) ==> Silent(s, t) && LeavesAt(s, t, name, otherwise))
  }

  predicate LeavesAt(s: State, t: State, name: string, status: Option<ProcedureState>)
  {
    if status.Some? then Leaves(s, t, name, status.value) else t.procedures == s.procedures
  }

  predicate TellsIf(s: State, t: State, encodes: bool, mtype: RmrType, name: string)
  {
    if encodes then Tells(s, t, mtype, Some(name), None) else Silent(s, t)
  }

  /** A message other than E2setup of a node that is set up: what it becomes, under the node's name, and the state it
      leaves. Error Indications follow below. */
  lemma GatedDoes(s: State, conn: nat, pdu: Pdu, name: string)
    requires conn in s.connections && name == s.connections[conn].enodbName && name != "" && name in s.procedures
    requires !pdu.E2setup? && !pdu.ErrorIndication?
    ensures var t := Step(s, NodePdu(conn, pdu));
            && SameLinks(s, t)
            && match pdu
               case ServiceUpdate(encodes) =>
                 TellsIf(s, t, encodes, RIC_SERVICE_UPDATE, name) && Leaves(s, t, name, SERVICE_UPDATE_ONGOING)
               case ConfigurationUpdate(encodes) =>
                 TellsIf(s, t, encodes, RIC_E2NODE_CONFIG_UPDATE, name) && t.procedures == s.procedures
               case ResetRequest(encodes) => TellsIf(s, t, encodes, RIC_E2_RESET_REQ, name) && t.procedures == s.procedures
               case Indication(ies) =>
                 ForwardsFirst(s, t, name, ies, RIC_INDICATION, Some(INDICATION_COMPLETED), Some(INDICATION_ONGOING))
               case SubscriptionDeleteRequired =>
                 Tells(s, t, RIC_SUB_DEL_REQUIRED, Some(name), None) && t.procedures == s.procedures
               case ResetResponse(encodes) => TellsIf(s, t, encodes, RIC_E2_RESET_RESP, name) && t.procedures == s.procedures
               case ControlAcknowledge(ies) =>
                 ForwardsFirst(s, t, name, ies, RIC_CONTROL_ACK, Some(CONTROL_COMPLETED), None)
               case SubscriptionResponse =>
                 Tells(s, t, RIC_SUB_RESP, Some(name), None) && Leaves(s, t, name, INDICATION_ONGOING)
               case SubscriptionDeleteResponse =>
                 Tells(s, t, RIC_SUB_DEL_RESP, Some(name), None) && Leaves(s, t, name, INDICATION_ONGOING)
               case ControlFailure(ies) => ForwardsFirst(s, t, name, ies, RIC_CONTROL_FAILURE, None, None)
               case SubscriptionFailure => Tells(s, t, RIC_SUB_FAILURE, Some(name), None) && t.procedures == s.procedures
               case SubscriptionDeleteFailure => Tells(s, t, RIC_SUB_FAILURE, Some(name), None) && t.procedures == s.procedures
               case _ => t == s
  {
    hide FirstRequest, ErrorSends, SetupStep;
    NothingEmitted(s.outbox, Some(name), s.transactionCounter);
    if pdu.Indication? || pdu.ControlAcknowledge? || pdu.ControlFailure? {
      FirstRequestExactly(pdu.ies);
      forall i | FirstRequestAt(pdu.ies, i) ensures FirstRequest(pdu.ies) == Some(pdu.ies[i].instance) {
        FirstRequestOnce(pdu.ies, i);
      }
    }
  }

  /** An Error Indication: to E2Manager with the stored transaction id, or to SubMgr with a request id and a cause, as
      the diagnosed code and the entry's state say; and always RIC_ERROR_INDICATION last. */
  lemma ErrorIndicationDoes(s: State, conn: nat, ies: seq<ErrorIe>, encodes: bool, name: string)
    requires conn in s.connections && name == s.connections[conn].enodbName && name != "" && name in s.procedures
    ensures var t, code, entry := Step(s, NodePdu(conn, ErrorIndication(ies, encodes))), DiagnosedCode(ies), s.procedures[name];
            var forManager := ErrorTransactionId(entry.transactionId) in ies
              && (code == 1 || code == 7 || (code == 0 && (entry.status == SETUP_COMPLETED || entry.status == SERVICE_UPDATE_ONGOING)));
            var forSubMgr := ErrorRequestId in ies && ErrorCause in ies
              && (code == 8 || (code == 0 && entry.status == SUBS_ONGOING));
            var c := s.transactionCounter;
            && SameLinks(s, t) && t.procedures == s.procedures
            && t.outbox == s.outbox +
                 if forManager && encodes then
                   [Rmr(RIC_E2_RIC_ERROR_INDICATION, Some(name), None, c), Rmr(RIC_ERROR_INDICATION, Some(name), None, c + 1)]
                 else if forSubMgr then
                   [Rmr(RIC_E2_RAN_ERROR_INDICATION, Some(name), None, c), Rmr(RIC_ERROR_INDICATION, Some(name), None, c + 1)]
                 else [Rmr(RIC_ERROR_INDICATION, Some(name), None, c)]
  {
    hide DiagnosedCode, SetupStep;
  }

  /** A message other than E2setup of a connection without a name or without an entry. */
  lemma UngatedDoesNothing(s: State, conn: nat, pdu: Pdu)
    requires conn in s.connections && !pdu.E2setup?
    requires s.connections[conn].enodbName == "" || s.connections[conn].enodbName !in s.procedures
    ensures Step(s, NodePdu(conn, pdu)) == s
  {
  }

  // ----- E2setup -----

  predicate LastIdAt(ies: seq<SetupIe>, i: int)
  {
    0 <= i < |ies| && ies[i].SetupTransactionId? && forall j :: i < j < |ies| ==> !ies[j].SetupTransactionId?
  }

  /** The transaction id is the last one, unless a node id is refused: then, and without any, it is negative. */
  lemma {:induction false} CollectedId(c: Collected, ies: seq<SetupIe>)
    ensures NodeId(None) in ies ==> Collect(c, ies).transactionId == -1
    ensures NodeId(None) !in ies ==>
              && (forall i :: LastIdAt(ies, i) ==> Collect(c, ies).transactionId == ies[i].id)
              && ((forall i :: 0 <= i < |ies| ==> !ies[i].SetupTransactionId?) ==> Collect(c, ies).transactionId == c.transactionId)
    decreases |ies|
  {
    hide Overlay;
    if ies != [] && ies[0] != NodeId(None) {
      var d := match ies[0]
        case NodeId(Some(built)) =>
          c.(peerName := built, name := Overlay(c.name, built), keys := c.keys + [Overlay(c.name, built)])
        case SetupTransactionId(id) => c.(transactionId := id)
        case _ => c;
      var rest := ies[1..];
      CollectedId(d, rest);
      assert Collect(c, ies) == Collect(d, rest);
      assert NodeId(None) in ies <==> NodeId(None) in rest;
      assert forall i :: 1 <= i < |ies| ==> ies[i] == rest[i - 1];
      assert forall i :: 1 <= i < |ies| ==> (LastIdAt(ies, i) <==> LastIdAt(rest, i - 1));
    }
  }

  /** The name written last over the older one, if any. */
  function WrittenName(older: string, ies: seq<SetupIe>): string
  {
    var keys := Laid(older, Names(ies));
    if keys == [] then older else keys[|keys| - 1]
  }

  /** E2setup: the connection gets the last usable name; each name, written over the one before, becomes a key; and if
      no node id is refused and the last transaction id is not negative, the setup is reported under the name that is
      written last, and starts that name's entry, which keeps an older transaction id. */
  lemma SetupDoes(s: State, conn: nat, ies: seq<SetupIe>, encodes: bool)
    requires conn in s.connections
    ensures var t, older := Step(s, NodePdu(conn, E2setup(ies, encodes))), s.connections[conn].enodbName;
            var keys, name := Laid(older, Names(ies)), WrittenName(older, ies);
            && t.connections == s.connections[conn := s.connections[conn].(enodbName := LastName(Names(ies)))]
            && (forall key :: key in t.registry <==> key in s.registry || key in keys)
            && (forall key :: key in t.registry ==> t.registry[key] == if key in keys then conn else s.registry[key])
            && (NodeId(None) in ies || (forall i :: LastIdAt(ies, i) ==> ies[i].id < 0) ==>
                  Silent(s, t) && t.procedures == s.procedures)
            && (forall i :: LastIdAt(ies, i) && ies[i].id >= 0 && NodeId(None) !in ies ==>
                  && TellsIf(s, t, encodes, RIC_E2_SETUP_REQ, name)
                  && t.procedures == s.procedures[name :=
                       Handling(SETUP_ONGOING, if name in s.procedures then s.procedures[name].transactionId else ies[i].id)])
  {
    hide Collect, Bind, Overlay, Laid, Names, LastIdAt, WrittenName;
    var older, c := s.connections[conn].enodbName, Setup(s.connections[conn].enodbName, ies);
    SetupCollects(older, ies);
    NothingEmitted(s.outbox, Some(c.name), s.transactionCounter);
    forall key ensures key in Bind(s.registry, c.keys, conn) <==> key in s.registry || key in c.keys
               ensures key in c.keys ==> Bind(s.registry, c.keys, conn)[key] == conn
               ensures key !in c.keys && key in s.registry ==> Bind(s.registry, c.keys, conn)[key] == s.registry[key]
    {
      BindKeys(s.registry, c.keys, conn, key);
    }
  }

  /** What is collected, read off the request. */
  lemma SetupCollects(older: string, ies: seq<SetupIe>)
    ensures var c := Setup(older, ies);
            && c.keys == Laid(older, Names(ies)) && c.peerName == LastName(Names(ies)) && c.name == WrittenName(older, ies)
            && (NodeId(None) in ies || (forall i :: LastIdAt(ies, i) ==> ies[i].id < 0) ==> c.transactionId < 0)
            && (forall i :: LastIdAt(ies, i) && NodeId(None) !in ies ==> c.transactionId == ies[i].id)
  {
    hide Collect, Overlay, Laid, Names;
    var start := Collected("", older, [], -1);
    CollectNames(start, ies);
    NoNames(older);
    CollectedId(start, ies);
    NamesOfLaid(older, Names(ies));
    if NodeId(None) !in ies && (forall i :: LastIdAt(ies, i) ==> ies[i].id < 0) {
      NegativeId(start, ies);
    }
  }

  lemma NegativeId(c: Collected, ies: seq<SetupIe>)
    requires NodeId(None) !in ies && c.transactionId < 0 && forall i :: LastIdAt(ies, i) ==> ies[i].id < 0
    ensures Collect(c, ies).transactionId < 0
  {
    hide Collect;
    CollectedId(c, ies);
    if exists i :: 0 <= i < |ies| && ies[i].SetupTransactionId? {
      LastIdThere(ies);
    }
  }

  lemma NamesOfLaid(older: string, names: seq<string>)
    ensures Laid(older, names) == [] <==> names == []
  {
  }

  lemma {:induction false} LastIdThere(ies: seq<SetupIe>)
    requires exists i :: 0 <= i < |ies| && ies[i].SetupTransactionId?
    ensures exists i :: LastIdAt(ies, i)
  {
    var n := |ies| - 1;
    if ies[n].SetupTransactionId? {
      assert LastIdAt(ies, n);
    } else {
      var front := ies[..n];
      var i :| 0 <= i < |ies| && ies[i].SetupTransactionId?;
      assert front[i].SetupTransactionId?;
      LastIdThere(front);
      var j :| LastIdAt(front, j);
      assert forall k :: j < k < n ==> ies[k] == front[k];
      assert LastIdAt(ies, j);
    }
  }

  // ----- messages of xApps -----

  /** Whether a message for a bound name is written to its connection. */
  predicate IsWritten(kind: XappKind)
  {
    match kind
    case SETUP_RESP(encodes) => encodes
    case SETUP_FAILURE(encodes) => encodes
    case CONFIG_UPDATE_ACK(encodes) => encodes
    case CONFIG_UPDATE_FAILURE(encodes) => encodes
    case XAPP_ERROR_INDICATION => true
    case SUB_REQ => true
    case SUB_DEL_REQ => true
    case CONTROL_REQ => true
    case SERVICE_QUERY(encodes) => encodes
    case XAPP_SERVICE_UPDATE_ACK(encodes) => encodes
    case XAPP_SERVICE_UPDATE_FAILURE(encodes) => encodes
    case XAPP_RESET_REQ(encodes) => encodes
    case XAPP_RESET_RESP(encodes) => encodes
    case KEEP_ALIVE_REQ => false
    case HEALTH_CHECK_REQ => false
    case UNSUPPORTED => false
  }

  /** A message that is written: the state it leaves the entry of its name in. */
  lemma WrittenMessageDoes(s: State, meid: string, kind: XappKind)
    requires meid in s.registry && s.registry[meid] in s.connections && IsWritten(kind)
    ensures var t := Step(s, XappMessage(meid, kind, true));
            && SameLinks(s, t) && Silent(s, t)
            && match kind
               case SETUP_RESP(_) => Leaves(s, t, meid, SETUP_COMPLETED)
               case SETUP_FAILURE(_) => Leaves(s, t, meid, SETUP_COMPLETED)
               case SUB_REQ => Leaves(s, t, meid, SUBS_ONGOING)
               case SUB_DEL_REQ => Leaves(s, t, meid, SUBS_DEL_ONGOING)
               case CONTROL_REQ => Leaves(s, t, meid, CONTROL_ONGOING)
               case SERVICE_QUERY(_) => Leaves(s, t, meid, SERVICE_UPDATE_ONGOING)
               case _ => t.procedures == s.procedures
  {
  }

  /** A message whose write fails: an established connection is forgotten; a request has set its entry, if that is not
      the one forgotten, back to setup completed. */
  lemma FailedMessageDoes(s: State, meid: string, kind: XappKind)
    requires meid in s.registry && s.registry[meid] in s.connections && IsWritten(kind)
    ensures var conn := s.registry[meid];
            var t, u := Step(s, XappMessage(meid, kind, false)),
              s.(procedures := if (kind.SUB_REQ? || kind.SUB_DEL_REQ? || kind.CONTROL_REQ?) && meid in s.procedures
                               then s.procedures[meid := Handling(SETUP_COMPLETED, s.procedures[meid].transactionId)]
                               else s.procedures);
            Silent(s, t) && if s.connections[conn].isConnected then Loses(u, t, conn) else t == u
  {
  }

  /** All other messages of xApps. */
  lemma OtherMessageDoes(s: State, meid: string, kind: XappKind, sent: bool)
    requires !IsWritten(kind) || meid !in s.registry || s.registry[meid] !in s.connections
    ensures var t := Step(s, XappMessage(meid, kind, sent));
            match kind
            case KEEP_ALIVE_REQ =>
              SameLinks(s, t) && t.procedures == s.procedures && Tells(s, t, E2_TERM_KEEP_ALIVE_RESP, None, None)
            case HEALTH_CHECK_REQ =>
              SameLinks(s, t) && t.procedures == s.procedures && Tells(s, t, RIC_HEALTH_CHECK_RESP, None, None)
            case _ => t == s
  {
  }

  // ----- connections -----

  /** A lost connection is reported under its name; its entry goes, and it goes itself unless its descriptor was closed. */
  lemma LossDoes(s: State, conn: nat, fdOpen: bool)
    requires conn in s.connections
    ensures var t, name := Step(s, Disconnect(conn, fdOpen)), s.connections[conn].enodbName;
            && Tells(s, t, RIC_SCTP_CONNECTION_FAILURE, Some(name), None)
            && (if fdOpen then Loses(s, t, conn)
                else SameLinks(s, t) && t.procedures == (map n | n in s.procedures && n != name :: s.procedures[n]))
    ensures Step(s, PollError(conn)) == Step(s, Disconnect(conn, true))
  {
  }

  /** When a connection becomes writable: reported on an error; established when it can be watched and the pending
      message is written; forgotten otherwise. */
  lemma WriteReadyDoes(s: State, conn: nat, soError: bool, epollOk: bool, sent: bool)
    requires conn in s.connections
    ensures var t := Step(s, WriteReady(conn, soError, epollOk, sent));
            if soError then
              SameLinks(s, t) && t.procedures == s.procedures
              && Tells(s, t, RIC_SCTP_CONNECTION_FAILURE, Some(s.connections[conn].enodbName), None)
            else if epollOk && sent then
              t == s.(connections := s.connections[conn := Cu(s.connections[conn].enodbName, s.connections[conn].hostKey, true)])
            else Silent(s, t) && Loses(s, t, conn)
  {
  }

  /** A new connection has no name and is not established. */
  lemma AcceptDoes(s: State, conn: nat, hostKey: string)
    requires conn !in s.connections && "host:" <= hostKey
    ensures Step(s, Accept(conn, hostKey)) == s.(connections := s.connections[conn := Cu("", hostKey, false)])
  {
  }

  /** The main thread's message is E2_TERM_INIT. */
  lemma InitDoes(s: State)
    ensures var t := Step(s, TermInit);
            SameLinks(s, t) && t.procedures == s.procedures && Tells(s, t, E2_TERM_INIT, None, None)
  {
  }

  /** RIC_SCTP_CLEAR_ALL leaves the table alone and the registry empty. */
  lemma ClearAllDoes(s: State, keys: seq<string>)
    requires Enabled(s, ClearAll(keys))
    ensures Step(s, ClearAll(keys)).procedures == s.procedures && Step(s, ClearAll(keys)).registry == map[]
  {
    CloseAllKeeps(s, keys);
  }

  // ----- where a message comes from -----

  /** A message of a node that is set up, under its name. */
  predicate OfNode(s: State, ev: Event, m: Rmr)
  {
    && ev.NodePdu? && ev.conn in s.connections && m.meid == Some(s.connections[ev.conn].enodbName)
    && s.connections[ev.conn].enodbName != "" && s.connections[ev.conn].enodbName in s.procedures
  }

  ghost predicate OfRequest(ies: seq<RequestIe>, m: Rmr)
  {
    exists i :: FirstRequestAt(ies, i) && m.subId == Some(ies[i].instance)
  }

  /** The event that alone explains a message of this type, name and subscription id. */
  ghost predicate Explains(s: State, ev: Event, m: Rmr)
  {
    match m.mtype
    case RIC_E2_SETUP_REQ =>
      && ev.NodePdu? && ev.pdu.E2setup? && ev.pdu.encodes && NodeId(None) !in ev.pdu.setupIes && m.subId == None
      && ev.conn in s.connections && m.meid == Some(WrittenName(s.connections[ev.conn].enodbName, ev.pdu.setupIes))
    case RIC_SERVICE_UPDATE => OfNode(s, ev, m) && ev.pdu == ServiceUpdate(true) && m.subId == None
    case RIC_E2NODE_CONFIG_UPDATE => OfNode(s, ev, m) && ev.pdu == ConfigurationUpdate(true) && m.subId == None
    case RIC_E2_RIC_ERROR_INDICATION =>
      && OfNode(s, ev, m) && ev.pdu.ErrorIndication? && ev.pdu.encodes && m.subId == None
      && ErrorTransactionId(s.procedures[s.connections[ev.conn].enodbName].transactionId) in ev.pdu.errorIes
    case RIC_E2_RAN_ERROR_INDICATION =>
      && OfNode(s, ev, m) && ev.pdu.ErrorIndication? && m.subId == None
      && ErrorRequestId in ev.pdu.errorIes && ErrorCause in ev.pdu.errorIes
    case RIC_ERROR_INDICATION => OfNode(s, ev, m) && ev.pdu.ErrorIndication? && m.subId == None
    case RIC_E2_RESET_REQ => OfNode(s, ev, m) && ev.pdu == ResetRequest(true) && m.subId == None
    case RIC_E2_RESET_RESP => OfNode(s, ev, m) && ev.pdu == ResetResponse(true) && m.subId == None
    case RIC_INDICATION => OfNode(s, ev, m) && ev.pdu.Indication? && OfRequest(ev.pdu.ies, m)
    case RIC_SUB_DEL_REQUIRED => OfNode(s, ev, m) && ev.pdu == SubscriptionDeleteRequired && m.subId == None
    case RIC_CONTROL_ACK => OfNode(s, ev, m) && ev.pdu.ControlAcknowledge? && OfRequest(ev.pdu.ies, m)
    case RIC_CONTROL_FAILURE => OfNode(s, ev, m) && ev.pdu.ControlFailure? && OfRequest(ev.pdu.ies, m)
    case RIC_SUB_RESP => OfNode(s, ev, m) && ev.pdu == SubscriptionResponse && m.subId == None
    case RIC_SUB_DEL_RESP => OfNode(s, ev, m) && ev.pdu == SubscriptionDeleteResponse && m.subId == None
    case RIC_SUB_FAILURE =>
      OfNode(s, ev, m) && (ev.pdu == SubscriptionFailure || ev.pdu == SubscriptionDeleteFailure) && m.subId == None
    case RIC_SCTP_CONNECTION_FAILURE =>
      && m.subId == None
      && if ev.ClearAll? then exists c :: c in s.connections && m.meid == Some(s.connections[c].enodbName)
         else (ev.Disconnect? || ev.PollError? || (ev.WriteReady? && ev.soError)) && ev.conn in s.connections
              && m.meid == Some(s.connections[ev.conn].enodbName)
    case E2_TERM_KEEP_ALIVE_RESP => ev.XappMessage? && ev.kind == KEEP_ALIVE_REQ && m.meid == None && m.subId == None
    case RIC_HEALTH_CHECK_RESP => ev.XappMessage? && ev.kind == HEALTH_CHECK_REQ && m.meid == None && m.subId == None
    case E2_TERM_INIT => ev.TermInit? && m.meid == None && m.subId == None
  }

  /** Every message that an event adds is explained by it. */
  lemma StepExplains(s: State, ev: Event, i: nat)
    requires Enabled(s, ev) && |s.outbox| <= i < |Step(s, ev).outbox|
    ensures s.outbox <= Step(s, ev).outbox && Explains(s, ev, Step(s, ev).outbox[i])
  {
    hide Step, Explains;
    StepEmits(s, ev);
    match ev {
      case NodePdu(conn, pdu) =>
        if pdu.E2setup? {
          SetupExplains(s, conn, pdu, i);
        } else {
          GatedExplains(s, conn, pdu, i);
        }
      case ClearAll(keys) => ClearExplains(s, keys, i);
      case XappMessage(meid, kind, sent) => XappExplains(s, meid, kind, sent, i);
      case _ => OthersExplain(s, ev, i);
    }
  }

  lemma SetupExplains(s: State, conn: nat, pdu: Pdu, i: nat)
    requires conn in s.connections && pdu.E2setup? && |s.outbox| <= i < |Step(s, NodePdu(conn, pdu)).outbox|
    ensures Explains(s, NodePdu(conn, pdu), Step(s, NodePdu(conn, pdu)).outbox[i])
  {
    hide Step, Laid, Names;
    SetupDoes(s, conn, pdu.setupIes, pdu.encodes);
    if !(forall j :: LastIdAt(pdu.setupIes, j) ==> pdu.setupIes[j].id < 0) {
      var j :| LastIdAt(pdu.setupIes, j) && pdu.setupIes[j].id >= 0;
    }
  }

  lemma GatedExplains(s: State, conn: nat, pdu: Pdu, i: nat)
    requires conn in s.connections && !pdu.E2setup? && |s.outbox| <= i < |Step(s, NodePdu(conn, pdu)).outbox|
    ensures Explains(s, NodePdu(conn, pdu), Step(s, NodePdu(conn, pdu)).outbox[i])
  {
    hide Step;
    var name := s.connections[conn].enodbName;
    if name == "" || name !in s.procedures {
      UngatedDoesNothing(s, conn, pdu);
    } else if pdu.ErrorIndication? {
      ErrorIndicationDoes(s, conn, pdu.errorIes, pdu.encodes, name);
    } else {
      GatedDoes(s, conn, pdu, name);
      if pdu.Indication? || pdu.ControlAcknowledge? || pdu.ControlFailure? {
        FirstRequestExactly(pdu.ies);
      }
    }
  }

  lemma ClearExplains(s: State, keys: seq<string>, i: nat)
    requires Enabled(s, ClearAll(keys)) && |s.outbox| <= i < |Step(s, ClearAll(keys)).outbox|
    ensures Explains(s, ClearAll(keys), Step(s, ClearAll(keys)).outbox[i])
  {
    hide Step, Closed;
    StepEmits(s, ClearAll(keys));
    var c := Closed(s, keys)[i - |s.outbox|];
    assert c in s.connections;
  }

  lemma XappExplains(s: State, meid: string, kind: XappKind, sent: bool, i: nat)
    requires |s.outbox| <= i < |Step(s, XappMessage(meid, kind, sent)).outbox|
    ensures Explains(s, XappMessage(meid, kind, sent), Step(s, XappMessage(meid, kind, sent)).outbox[i])
  {
    hide Step, Loses;
    if !IsWritten(kind) || meid !in s.registry || s.registry[meid] !in s.connections {
      OtherMessageDoes(s, meid, kind, sent);
    } else if sent {
      WrittenMessageDoes(s, meid, kind);
    } else {
      FailedMessageDoes(s, meid, kind);
    }
  }

  lemma OthersExplain(s: State, ev: Event, i: nat)
    requires Enabled(s, ev) && |s.outbox| <= i < |Step(s, ev).outbox|
    requires ev.Accept? || ev.Disconnect? || ev.PollError? || ev.WriteReady? || ev.TermInit?
    ensures Explains(s, ev, Step(s, ev).outbox[i])
  {
    hide Step, Loses;
    match ev {
      case Accept(conn, hostKey) => AcceptDoes(s, conn, hostKey);
      case Disconnect(conn, fdOpen) => LossDoes(s, conn, fdOpen);
      case PollError(conn) => LossDoes(s, conn, true);
      case WriteReady(conn, soError, epollOk, sent) => WriteReadyDoes(s, conn, soError, epollOk, sent);
      case _ => InitDoes(s);
    }
  }

  /** Over a run: every message was added by one event, which explains its type, its name and its subscription id. */
  lemma {:induction false} MessageOrigin(states: seq<State>, evs: seq<Event>, k: nat, i: nat)
    requires IsRun(states, evs) && k <= |evs| && states[0].outbox == [] && i < |states[k].outbox|
    ensures exists j :: 0 <= j < k && |states[j].outbox| <= i < |states[j + 1].outbox|
                     && Explains(states[j], evs[j], states[k].outbox[i])
  {
    hide Step, Enabled, Explains;
    var s, ev := states[k - 1], evs[k - 1];
    StepEmits(s, ev);
    if i < |s.outbox| {
      MessageOrigin(states, evs, k - 1, i);
    } else {
      StepExplains(s, ev, i);
    }
  }
}
