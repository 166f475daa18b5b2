/** The handlers of sctpThread.cpp over the procedure table and the connection registry; each one does
    what E2Protocol says. */
module E2Termination {
  import opened Text
  import opened ProcedureTable
  import opened E2Protocol

  lemma EmitTwice(out: seq<Rmr>, meid: Option<string>, a: seq<Send>, b: seq<Send>, counter: int)
    ensures out + Emitted(meid, a, counter) + Emitted(meid, b, counter + |a|) == out + Emitted(meid, a + b, counter)
  {
  }

  class Termination {
    const procedures: Table
    var sctpMap: map<string, nat>
    var connections: map<nat, Cu>
    var outbox: seq<Rmr>
    var transactionCounter: int

    /** counter is what main draws. */
    constructor (counter: int)
      ensures Valid() && fresh(procedures) && Abs() == Initial(counter)
    {
      procedures := new Table();
      sctpMap, connections, outbox, transactionCounter := map[], map[], [], counter;
    }

    ghost predicate Valid()
      reads this, procedures
    {
      procedures.Valid()
    }

    ghost function Abs(): State
      reads this, procedures
    {
      State(procedures.Contents(), sctpMap, connections, outbox, transactionCounter)
    }

    /** rmr_send_msg with the next transaction id; its result is only logged. */
    method SendRmr(meid: Option<string>, mtype: RmrType, subId: Option<int>)
      requires Valid()
      modifies this`outbox, this`transactionCounter
      ensures Valid() && Abs() == Emit(old(Abs()), meid, [Send(mtype, subId)])
    {
      outbox := outbox + [Rmr(mtype, meid, subId, transactionCounter)];
      transactionCounter := transactionCounter + 1;
    }

    // ----- messages from nodes -----

    /** collectSetupRequestData: transactionId is negative when no message is to be sent. */
    method CollectSetupRequestData(conn: nat, ies: seq<SetupIe>) returns (name: string, transactionId: int)
      requires Valid() && conn in connections
      modifies this`connections, this`sctpMap
      ensures Valid()
      ensures var c := Setup(old(connections)[conn].enodbName, ies);
              && name == c.name && transactionId == c.transactionId
              && connections == old(connections)[conn := old(connections)[conn].(enodbName := c.peerName)]
              && sctpMap == Bind(old(sctpMap), c.keys, conn)
    {
      ghost var cs, m := connections, sctpMap;
      transactionId := -1;
      name := connections[conn].enodbName;
      connections := connections[conn := connections[conn].(enodbName := "")];
      ghost var keys: seq<string> := [];
      var i := 0;
      while i < |ies|
        invariant 0 <= i <= |ies| && conn in connections
        invariant connections == cs[conn := cs[conn].(enodbName := connections[conn].enodbName)]
        invariant sctpMap == Bind(m, keys, conn)
        invariant Collect(Collected(connections[conn].enodbName, name, keys, transactionId), ies[i..])
               == Setup(cs[conn].enodbName, ies)
      {
        assert ies[i..][0] == ies[i] && ies[i..][1..] == ies[i + 1..];
        match ies[i] {
          case NodeId(built) =>
            if built.None? { return name, -1; }
            connections := connections[conn := connections[conn].(enodbName := built.value)];
            name := Overlay(name, built.value);
            sctpMap := sctpMap[name := conn];
            BindSnoc(m, keys, name, conn);
            keys := keys + [name];
          case SetupTransactionId(id) => transactionId := id;
          case OtherSetupIe =>
        }
        i := i + 1;
      }
    }

    /** E2setup, with handleE2SetupReq. */
    method SetupRequest(conn: nat, ies: seq<SetupIe>, encodes: bool)
      requires Valid() && conn in connections
      modifies this, procedures
      ensures Valid() && Abs() == SetupStep(old(Abs()), conn, ies, encodes)
    {
      hide Setup, Bind;
      var name, transactionId := CollectSetupRequestData(conn, ies);
      if transactionId < 0 { return; }
      NothingEmitted(outbox, Some(name), transactionCounter);
      if encodes { SendRmr(Some(name), RIC_E2_SETUP_REQ, None); }
      procedures.InsertSetup(name, transactionId);
    }

    /** The loop over the IEs of an ErrorIndication that sets the three bits and the procedure code. */
    method InspectErrorIndication(ies: seq<ErrorIe>, setupId: int) returns (present: RequiredIes, procedureCode: int)
      ensures present == IesPresent(ies, setupId) && procedureCode == DiagnosedCode(ies)
    {
      present, procedureCode := RequiredIes(false, false, false), 0;
      var i := 0;
      while i < |ies|
        invariant 0 <= i <= |ies|
        invariant present == IesPresent(ies[..i], setupId) && procedureCode == DiagnosedCode(ies[..i])
      {
        assert ies[..i + 1] == ies[..i] + [ies[i]];
        match ies[i] {
          case ErrorTransactionId(id) => if setupId == id { present := present.(transactionId := true); }
          case ErrorRequestId => present := present.(requestId := true);
          case ErrorCause => present := present.(cause := true);
          case Diagnostics(code) => if code.Some? { procedureCode := code.value; }
          case IgnoredErrorIe =>
        }
        i := i + 1;
      }
      assert ies[..|ies|] == ies;
    }

    /** getSendMsgBitSetValue */
    method SendMsgBits(procedureCode: int, present: RequiredIes, name: string) returns (to: Route)
      requires Valid()
      ensures to == Routing(procedureCode, present, StatusOf(procedures.Contents(), name))
    {
      to := Route(false, false);
      if procedureCode == 0 {
        var current := procedures.Current(name);
        if (current == SETUP_COMPLETED || current == SERVICE_UPDATE_ONGOING) && present.transactionId {
          to := to.(toE2Manager := true);
        } else if current == SUBS_ONGOING && present.requestId && present.cause {
          to := to.(toSubMgr := true);
        }
      } else if procedureCode == CODE_E2SETUP || procedureCode == CODE_SERVICE_UPDATE {
        if present.transactionId { to := to.(toE2Manager := true); }
      } else if procedureCode == CODE_SUBSCRIPTION {
        if present.requestId && present.cause { to := to.(toSubMgr := true); }
      }
    }

    method ErrorIndicationRequest(name: string, ies: seq<ErrorIe>, encodes: bool)
      requires Valid()
      modifies this`outbox, this`transactionCounter
      ensures Valid() && Abs() == GatedStep(old(Abs()), name, ErrorIndication(ies, encodes))
    {
      var found, handling := procedures.Get(name);
      if !found { return; }
      hide DiagnosedCode, IesPresent, Routing, Emitted;
      ghost var out, c := outbox, transactionCounter;
      var present, procedureCode := InspectErrorIndication(ies, handling.transactionId);
      var to := SendMsgBits(procedureCode, present, name);
      ghost var first: seq<Send> := [];
      NothingEmitted(out, Some(name), c);
      if to.toE2Manager {
        if encodes {
          SendRmr(Some(name), RIC_E2_RIC_ERROR_INDICATION, None);
          first := [Send(RIC_E2_RIC_ERROR_INDICATION, None)];
        }
      } else if to.toSubMgr {
        SendRmr(Some(name), RIC_E2_RAN_ERROR_INDICATION, None);
        first := [Send(RIC_E2_RAN_ERROR_INDICATION, None)];
      }
      assert outbox == out + Emitted(Some(name), first, c);
      SendRmr(Some(name), RIC_ERROR_INDICATION, None);
      EmitTwice(out, Some(name), first, [Send(RIC_ERROR_INDICATION, None)], c);
    }

    /** The loops over IEs of RICindication and the RICcontrol outcomes: the first RICrequestID is sent on. */
    method ForwardRequest(name: string, ies: seq<RequestIe>, mtype: RmrType) returns (messageSent: bool)
      requires Valid()
      modifies this`outbox, this`transactionCounter
      ensures Valid() && messageSent == FirstRequest(ies).Some?
      ensures messageSent ==> Abs() == Emit(old(Abs()), Some(name), [Send(mtype, FirstRequest(ies))])
      ensures !messageSent ==> Abs() == old(Abs())
    {
      messageSent := false;
      var i := 0;
      while i < |ies|
        invariant 0 <= i <= |ies| && FirstRequest(ies) == FirstRequest(ies[i..])
        invariant Abs() == old(Abs())
      {
        assert ies[i..][0] == ies[i] && ies[i..][1..] == ies[i + 1..];
        if ies[i].RequestId? {
          SendRmr(Some(name), mtype, Some(ies[i].instance));
          return true;
        }
        i := i + 1;
      }
    }

    /** asnInitiatingRequest */
    method InitiatingRequest(conn: nat, pdu: Pdu)
      requires Valid() && conn in connections
      requires pdu.E2setup? || pdu.ServiceUpdate? || pdu.ConfigurationUpdate? || pdu.ErrorIndication? || pdu.ResetRequest?
            || pdu.Indication? || pdu.SubscriptionDeleteRequired? || pdu.OtherInitiating?
      modifies this, procedures
      ensures Valid() && Abs() == PduStep(old(Abs()), conn, pdu)
    {
      hide SetupStep, ErrorSends, Emitted, FirstRequest;
      var name := connections[conn].enodbName;
      NothingEmitted(outbox, Some(name), transactionCounter);
      if pdu.E2setup? {
        SetupRequest(conn, pdu.setupIes, pdu.encodes);
        return;
      }
      if pdu.ErrorIndication? {
        ErrorIndicationRequest(name, pdu.errorIes, pdu.encodes);
        return;
      }
      var found, handling := procedures.Get(name);
      if !found { return; }
      GatedIs(Abs(), name, pdu);
      StatusTwice(procedures.Contents(), name, SETUP_COMPLETED, SERVICE_UPDATE_ONGOING);
      StatusTwice(procedures.Contents(), name, INDICATION_ONGOING, INDICATION_COMPLETED);
      hide GatedStep, WithStatus, Emit;
      match pdu {
        case ServiceUpdate(encodes) =>
          procedures.SetStatus(name, SETUP_COMPLETED);
          if encodes { SendRmr(Some(name), RIC_SERVICE_UPDATE, None); }
          procedures.SetStatus(name, SERVICE_UPDATE_ONGOING);
        case ConfigurationUpdate(encodes) =>
          if encodes { SendRmr(Some(name), RIC_E2NODE_CONFIG_UPDATE, None); }
        case ResetRequest(encodes) =>
          if encodes { SendRmr(Some(name), RIC_E2_RESET_REQ, None); }
        case Indication(ies) =>
          procedures.SetStatus(name, INDICATION_ONGOING);
          var messageSent := ForwardRequest(name, ies, RIC_INDICATION);
          if messageSent { procedures.SetStatus(name, INDICATION_COMPLETED); }
        case SubscriptionDeleteRequired => SendRmr(Some(name), RIC_SUB_DEL_REQUIRED, None);
        case _ =>
      }
    }

    /** asnSuccessfulMsg */
    method SuccessfulOutcome(conn: nat, pdu: Pdu)
      requires Valid() && conn in connections
      requires pdu.ResetResponse? || pdu.ControlAcknowledge? || pdu.SubscriptionResponse? || pdu.SubscriptionDeleteResponse?
            || pdu.OtherSuccessful?
      modifies this, procedures
      ensures Valid() && Abs() == PduStep(old(Abs()), conn, pdu)
    {
      hide SetupStep, ErrorSends, Emitted, FirstRequest;
      var name := connections[conn].enodbName;
      NothingEmitted(outbox, Some(name), transactionCounter);
      var found, handling := procedures.Get(name);
      if !found { return; }
      GatedIs(Abs(), name, pdu);
      StatusTwice(procedures.Contents(), name, SUBS_DEL_COMPLETED, INDICATION_ONGOING);
      hide GatedStep, WithStatus, Emit;
      match pdu {
        case ResetResponse(encodes) =>
          if encodes { SendRmr(Some(name), RIC_E2_RESET_RESP, None); }
        case ControlAcknowledge(ies) =>
          var messageSent := ForwardRequest(name, ies, RIC_CONTROL_ACK);
          if messageSent { procedures.SetStatus(name, CONTROL_COMPLETED); }
        case SubscriptionResponse =>
          SendRmr(Some(name), RIC_SUB_RESP, None);
          procedures.SetStatus(name, INDICATION_ONGOING);
        case SubscriptionDeleteResponse =>
          procedures.SetStatus(name, SUBS_DEL_COMPLETED);
          SendRmr(Some(name), RIC_SUB_DEL_RESP, None);
          procedures.SetStatus(name, INDICATION_ONGOING);
        case _ =>
      }
    }

    /** asnUnSuccsesfulMsg */
    method UnsuccessfulOutcome(conn: nat, pdu: Pdu)
      requires Valid() && conn in connections
      requires pdu.ControlFailure? || pdu.SubscriptionFailure? || pdu.SubscriptionDeleteFailure? || pdu.OtherUnsuccessful?
      modifies this, procedures
      ensures Valid() && Abs() == PduStep(old(Abs()), conn, pdu)
    {
      hide SetupStep, ErrorSends, Emitted, FirstRequest;
      var name := connections[conn].enodbName;
      NothingEmitted(outbox, Some(name), transactionCounter);
      var found, handling := procedures.Get(name);
      if !found { return; }
      match pdu {
        case ControlFailure(ies) =>
          var messageSent := ForwardRequest(name, ies, RIC_CONTROL_FAILURE);
        case SubscriptionFailure => SendRmr(Some(name), RIC_SUB_FAILURE, None);
        case SubscriptionDeleteFailure => SendRmr(Some(name), RIC_SUB_FAILURE, None);
        case _ =>
      }
    }

    // ----- connections -----

    /** A new connection: no name, not established. */
    method AcceptConnection(conn: nat, hostKey: string)
      requires Valid() && Enabled(Abs(), Accept(conn, hostKey))
      modifies this`connections
      ensures Valid() && Abs() == Step(old(Abs()), Accept(conn, hostKey))
    {
      connections := connections[conn := Cu("", hostKey, false)];
    }

    /** cleanHashEntry */
    method CleanHashEntry(conn: nat)
      requires Valid() && conn in connections
      modifies this`sctpMap, this`connections
      ensures Valid() && Abs() == Cleaned(old(Abs()), conn)
    {
      var cu := connections[conn];
      ghost var m := sctpMap;
      if cu.hostKey in sctpMap { sctpMap := sctpMap - {cu.hostKey}; }
      if cu.enodbName in sctpMap { sctpMap := sctpMap - {cu.enodbName}; }
      connections := connections - {conn};
      assert sctpMap == m - {cu.hostKey, cu.enodbName};
    }

    /** sendSctpMsg; sent is the outcome of sctp_sendmsg. */
    method SendSctpMsg(conn: nat, sent: bool) returns (rc: int)
      requires Valid() && conn in connections
      modifies this, procedures
      ensures Valid() && Abs() == Written(old(Abs()), conn, sent) && (rc == 0 <==> sent)
    {
      if !sent {
        if !connections[conn].isConnected { return -1; }
        procedures.Remove(connections[conn].enodbName);
        CleanHashEntry(conn);
        return -1;
      }
      return 0;
    }

    /** The end of receiveDataFromSctp when the peer has closed or the read failed. */
    method LoseConnection(conn: nat, fdOpen: bool)
      requires Valid() && conn in connections
      modifies this, procedures
      ensures Valid() && Abs() == DisconnectStep(old(Abs()), conn, fdOpen)
    {
      var name := connections[conn].enodbName;
      SendRmr(Some(name), RIC_SCTP_CONNECTION_FAILURE, None);
      procedures.Remove(name);
      if fdOpen { CleanHashEntry(conn); }
    }

    /** handlepoll_error */
    method HandlePollError(conn: nat)
      requires Valid() && conn in connections
      modifies this, procedures
      ensures Valid() && Abs() == Step(old(Abs()), PollError(conn))
    {
      SendRmr(Some(connections[conn].enodbName), RIC_SCTP_CONNECTION_FAILURE, None);
      procedures.Remove(connections[conn].enodbName);
      CleanHashEntry(conn);
    }

    /** handleEinprogressMessages */
    method HandleEinprogress(conn: nat, soError: bool, epollOk: bool, sent: bool)
      requires Valid() && conn in connections
      modifies this, procedures
      ensures Valid() && Abs() == WriteReadyStep(old(Abs()), conn, soError, epollOk, sent)
    {
      if soError {
        SendRmr(Some(connections[conn].enodbName), RIC_SCTP_CONNECTION_FAILURE, None);
        return;
      }
      connections := connections[conn := connections[conn].(isConnected := true)];
      if !epollOk {
        procedures.Remove(connections[conn].enodbName);
        CleanHashEntry(conn);
        return;
      }
      var rc := SendSctpMsg(conn, sent);
    }

    // ----- messages from xApps -----

    /** sendDirectionalSctpMsg, and the state that success leaves. */
    method Forward(conn: nat, name: string, sent: bool, next: Option<ProcedureState>) returns (rc: int)
      requires Valid() && conn in connections
      modifies this, procedures
      ensures Valid()
      ensures Abs() == if sent then Marked(Written(old(Abs()), conn, sent), name, next) else Written(old(Abs()), conn, sent)
      ensures rc == if sent then 0 else -6
    {
      rc := SendSctpMsg(conn, sent);
      if rc != 0 { return -6; }
      if next.Some? { procedures.SetStatus(name, next.value); }
    }

    /** The same after PER_FromXML: a message that does not convert is dropped. */
    method ForwardEncoded(conn: nat, name: string, encodes: bool, sent: bool, next: Option<ProcedureState>) returns (rc: int)
      requires Valid() && conn in connections
      modifies this, procedures
      ensures Valid()
      ensures Abs() == if !encodes then old(Abs())
                       else if sent then Marked(Written(old(Abs()), conn, sent), name, next)
                       else Written(old(Abs()), conn, sent)
      ensures rc == if !encodes || sent then 0 else -6
    {
      if !encodes { return 0; }
      rc := Forward(conn, name, sent, next);
    }

    /** The switch of receiveXappMessages for a meid with a connection. */
    method DispatchXappMessage(conn: nat, meid: string, kind: XappKind, sent: bool) returns (rc: int)
      requires Valid() && Connection(Abs(), meid) == Some(conn) && !kind.KEEP_ALIVE_REQ? && !kind.HEALTH_CHECK_REQ?
      modifies this, procedures
      ensures Valid() && Abs() == XappStep(old(Abs()), meid, kind, sent)
    {
      hide Written, Emitted, Emit, Connection, XappStep;
      KindMeans(Abs(), conn, meid, kind, sent);
      match kind {
        case SETUP_RESP(encodes) => rc := ForwardEncoded(conn, meid, encodes, sent, Some(SETUP_COMPLETED));
        case SETUP_FAILURE(encodes) => rc := ForwardEncoded(conn, meid, encodes, sent, Some(SETUP_COMPLETED));
        case CONFIG_UPDATE_ACK(encodes) => rc := ForwardEncoded(conn, meid, encodes, sent, None);
        case CONFIG_UPDATE_FAILURE(encodes) => rc := ForwardEncoded(conn, meid, encodes, sent, None);
        case XAPP_ERROR_INDICATION => rc := Forward(conn, meid, sent, None);
        case SUB_REQ =>
          procedures.SetStatus(meid, SETUP_COMPLETED);
          rc := Forward(conn, meid, sent, Some(SUBS_ONGOING));
        case SUB_DEL_REQ =>
          procedures.SetStatus(meid, SETUP_COMPLETED);
          rc := Forward(conn, meid, sent, Some(SUBS_DEL_ONGOING));
        case CONTROL_REQ =>
          procedures.SetStatus(meid, SETUP_COMPLETED);
          rc := Forward(conn, meid, sent, Some(CONTROL_ONGOING));
        case SERVICE_QUERY(encodes) => rc := ForwardEncoded(conn, meid, encodes, sent, Some(SERVICE_UPDATE_ONGOING));
        case XAPP_SERVICE_UPDATE_ACK(encodes) => rc := ForwardEncoded(conn, meid, encodes, sent, None);
        case XAPP_SERVICE_UPDATE_FAILURE(encodes) => rc := ForwardEncoded(conn, meid, encodes, sent, None);
        case XAPP_RESET_REQ(encodes) => rc := ForwardEncoded(conn, meid, encodes, sent, None);
        case XAPP_RESET_RESP(encodes) => rc := ForwardEncoded(conn, meid, encodes, sent, None);
        case _ => rc := -7;
      }
    }

    /** receiveXappMessages, but for RIC_SCTP_CLEAR_ALL. */
    method ReceiveXappMessage(meid: string, kind: XappKind, sent: bool) returns (rc: int)
      requires Valid()
      modifies this, procedures
      ensures Valid() && Abs() == XappStep(old(Abs()), meid, kind, sent)
    {
      hide Emitted, Written, Forwards;
      if kind.KEEP_ALIVE_REQ? {
        SendRmr(None, E2_TERM_KEEP_ALIVE_RESP, None);
        return 0;
      }
      if kind.HEALTH_CHECK_REQ? {
        SendRmr(None, RIC_HEALTH_CHECK_RESP, None);
        return 0;
      }
      if meid !in sctpMap || sctpMap[meid] !in connections { return -1; }
      rc := DispatchXappMessage(sctpMap[meid], meid, kind, sent);
    }

    /** RIC_SCTP_CLEAR_ALL; keys is what getKeys returns. The procedure table is not touched. */
    method ClearAllConnections(keys: seq<string>)
      requires Valid() && Enabled(Abs(), ClearAll(keys))
      modifies this
      ensures Valid() && Abs() == Step(old(Abs()), ClearAll(keys))
    {
      hide Emitted, Enabled;
      ghost var s := Abs();
      var i := 0;
      while i < |keys|
        invariant 0 <= i <= |keys| && Valid() && sctpMap == s.registry
        invariant CloseAll(Abs(), keys[i..]) == CloseAll(s, keys)
      {
        var key := keys[i];
        assert keys[i..][0] == key && keys[i..][1..] == keys[i + 1..];
        if !("host:" <= key) && !("msg:" <= key) && key in sctpMap && sctpMap[key] in connections {
          var conn := sctpMap[key];
          SendRmr(Some(connections[conn].enodbName), RIC_SCTP_CONNECTION_FAILURE, None);
          connections := connections - {conn};
        }
        i := i + 1;
      }
      sctpMap := map[];
    }

    /** One round of the loop of sendTermInit. */
    method SendTermInit()
      requires Valid()
      modifies this`outbox, this`transactionCounter
      ensures Valid() && Abs() == Step(old(Abs()), TermInit)
    {
      SendRmr(None, E2_TERM_INIT, None);
    }

    /** One event of the listener loop, or one E2_TERM_INIT of the main thread. */
    method Handle(ev: Event)
      requires Valid() && Enabled(Abs(), ev)
      modifies this, procedures
      ensures Valid() && Abs() == Step(old(Abs()), ev)
    {
      hide PduStep, DisconnectStep, WriteReadyStep, XappStep, ClearStep, Forgotten, FailureNotice;
      match ev {
        case Accept(conn, hostKey) => AcceptConnection(conn, hostKey);
        case NodePdu(conn, pdu) => ReceivePdu(conn, pdu);
        case Disconnect(conn, fdOpen) => LoseConnection(conn, fdOpen);
        case PollError(conn) => HandlePollError(conn);
        case WriteReady(conn, soError, epollOk, sent) => HandleEinprogress(conn, soError, epollOk, sent);
        case XappMessage(meid, kind, sent) => var rc := ReceiveXappMessage(meid, kind, sent);
        case ClearAll(keys) => ClearAllConnections(keys);
        case TermInit => SendTermInit();
      }
    }

    /** The switch on pdu->present in receiveDataFromSctp. */
    method ReceivePdu(conn: nat, pdu: Pdu)
      requires Valid() && conn in connections
      modifies this, procedures
      ensures Valid() && Abs() == PduStep(old(Abs()), conn, pdu)
    {
      match pdu {
        case UnknownPresent => NothingEmitted(outbox, Some(connections[conn].enodbName), transactionCounter);
        case ResetResponse(_) => SuccessfulOutcome(conn, pdu);
        case ControlAcknowledge(_) => SuccessfulOutcome(conn, pdu);
        case SubscriptionResponse => SuccessfulOutcome(conn, pdu);
        case SubscriptionDeleteResponse => SuccessfulOutcome(conn, pdu);
        case OtherSuccessful => SuccessfulOutcome(conn, pdu);
        case ControlFailure(_) => UnsuccessfulOutcome(conn, pdu);
        case SubscriptionFailure => UnsuccessfulOutcome(conn, pdu);
        case SubscriptionDeleteFailure => UnsuccessfulOutcome(conn, pdu);
        case OtherUnsuccessful => UnsuccessfulOutcome(conn, pdu);
        case _ => InitiatingRequest(conn, pdu);
      }
    }
  }

  /** What an accepted message does: its sends, and the state it leaves. */
  lemma GatedIs(s: State, name: string, pdu: Pdu)
    requires !pdu.E2setup? && name != "" && name in s.procedures
    ensures var r := React(pdu, s.procedures[name]);
            && (r.sends == [] ==> Emit(s, Some(name), r.sends) == s)
            && GatedStep(s, name, pdu).registry == s.registry && GatedStep(s, name, pdu).connections == s.connections
            && GatedStep(s, name, pdu).outbox == Emit(s, Some(name), r.sends).outbox
            && GatedStep(s, name, pdu).transactionCounter == Emit(s, Some(name), r.sends).transactionCounter
            && GatedStep(s, name, pdu).procedures
               == if r.next.None? then s.procedures else WithStatus(s.procedures, name, r.next.value)
  {
    hide React, Emitted;
    NothingEmitted(s.outbox, Some(name), s.transactionCounter);
  }

  /** What each kind of message for a bound name does. */
  lemma KindMeans(s: State, conn: nat, meid: string, kind: XappKind, sent: bool)
    requires Connection(s, meid) == Some(conn) && !kind.KEEP_ALIVE_REQ? && !kind.HEALTH_CHECK_REQ?
    ensures conn in s.connections
    ensures var t := Marked(s, meid, Before(kind));
            && XappStep(s, meid, kind, sent)
               == (if !Forwards(kind) then s
                   else if sent then Marked(Written(t, conn, sent), meid, After(kind)) else Written(t, conn, sent))
  {
    hide Written, Emitted, Before, After, Forwards;
  }

  lemma {:induction false} BindSnoc(registry: map<string, nat>, keys: seq<string>, key: string, conn: nat)
    ensures Bind(registry, keys + [key], conn) == Bind(registry, keys, conn)[key := conn]
    decreases |keys|
  {
    var all := keys + [key];
    if keys == [] {
      assert all[1..] == [];
    } else {
      assert all[1..] == keys[1..] + [key];
      BindSnoc(registry[keys[0] := conn], keys[1..], key, conn);
    }
  }
}
