/** What the termination does on each event, on values: messages from nodes and xApps, the connection
    registry and the procedure table, and the messages handed to RMR. */
module E2Protocol {
  import opened Text
  import opened ProcedureTable

  // ----- messages from nodes -----

  /** An IE of E2setupRequest. built is what buildRanName makes of a node id, None when it refuses it. */
  datatype SetupIe = NodeId(built: Option<string>) | SetupTransactionId(id: int) | OtherSetupIe

  /** An IE of ErrorIndication whose value is present as its id announces; Ignored is any other. */
  datatype ErrorIe =
    | ErrorTransactionId(id: int)
    | ErrorRequestId
    | ErrorCause
    | Diagnostics(procedureCode: Option<int>)
    | IgnoredErrorIe

  /** An IE of RICindication, RICcontrolAcknowledge or RICcontrolFailure. */
  datatype RequestIe = RequestId(instance: int) | OtherRequestIe

  /** A decoded E2AP PDU. per: XML_From_PER or the XER encoding of the PDU succeeds. */
  datatype Pdu =
    | E2setup(setupIes: seq<SetupIe>, encodes: bool)
    | ServiceUpdate(encodes: bool)
    | ConfigurationUpdate(encodes: bool)
    | ErrorIndication(errorIes: seq<ErrorIe>, encodes: bool)
    | ResetRequest(encodes: bool)
    | Indication(ies: seq<RequestIe>)
    | SubscriptionDeleteRequired
    | OtherInitiating
    | ResetResponse(encodes: bool)
    | ControlAcknowledge(ies: seq<RequestIe>)
    | SubscriptionResponse
    | SubscriptionDeleteResponse
    | OtherSuccessful
    | ControlFailure(ies: seq<RequestIe>)
    | SubscriptionFailure
    | SubscriptionDeleteFailure
    | OtherUnsuccessful
    | UnknownPresent

  // ----- messages from xApps -----

  /** encodes: PER_FromXML succeeds. */
  datatype XappKind =
    | SETUP_RESP(encodes: bool) | SETUP_FAILURE(encodes: bool)
    | CONFIG_UPDATE_ACK(encodes: bool) | CONFIG_UPDATE_FAILURE(encodes: bool)
    | XAPP_ERROR_INDICATION
    | SUB_REQ | SUB_DEL_REQ | CONTROL_REQ
    | SERVICE_QUERY(encodes: bool)
    | XAPP_SERVICE_UPDATE_ACK(encodes: bool) | XAPP_SERVICE_UPDATE_FAILURE(encodes: bool)
    | XAPP_RESET_REQ(encodes: bool) | XAPP_RESET_RESP(encodes: bool)
    | KEEP_ALIVE_REQ | HEALTH_CHECK_REQ
    | UNSUPPORTED

  // ----- messages to RMR -----

  datatype RmrType =
    | RIC_E2_SETUP_REQ | RIC_SERVICE_UPDATE | RIC_E2NODE_CONFIG_UPDATE
    | RIC_E2_RIC_ERROR_INDICATION | RIC_E2_RAN_ERROR_INDICATION | RIC_ERROR_INDICATION
    | RIC_E2_RESET_REQ | RIC_E2_RESET_RESP | RIC_INDICATION | RIC_SUB_DEL_REQUIRED
    | RIC_CONTROL_ACK | RIC_CONTROL_FAILURE
    | RIC_SUB_RESP | RIC_SUB_DEL_RESP | RIC_SUB_FAILURE
    | RIC_SCTP_CONNECTION_FAILURE | E2_TERM_KEEP_ALIVE_RESP | RIC_HEALTH_CHECK_RESP
    | E2_TERM_INIT

  /** A message type with the subscription id the handler sets, if it sets one. */
  datatype Send = Send(mtype: RmrType, subId: Option<int>)

  /** A message handed to rmr_send_msg or rmr_rts_msg: the meid its handler sets, if it sets one, and the value of
      transactionCounter as its xact. */
  datatype Rmr = Rmr(mtype: RmrType, meid: Option<string>, subId: Option<int>, xact: int)

  function Emitted(meid: Option<string>, sends: seq<Send>, counter: int): (r: seq<Rmr>)
    ensures |r| == |sends|
  {
    seq(|sends|, i requires 0 <= i < |sends| => Rmr(sends[i].mtype, meid, sends[i].subId, counter + i))
  }

  lemma NothingEmitted(out: seq<Rmr>, meid: Option<string>, counter: int)
    ensures out + Emitted(meid, [], counter) == out
  {
  }

  // ----- state -----

  /** ConnectedCU_t. hostKey is "host:", the peer's address, a colon and its port. */
  datatype Cu = Cu(enodbName: string, hostKey: string, isConnected: bool)

  /** registry is the sctpMap, from key to connection; connections are the ConnectedCU_t not freed yet. */
  datatype State = State(
    procedures: Procedures, registry: map<string, nat>, connections: map<nat, Cu>,
    outbox: seq<Rmr>, transactionCounter: int)

  /** The start of the process; main draws the first transaction id at random. */
  function Initial(counter: int): State { State(map[], map[], map[], [], counter) }

  /** TermInit is one round of the loop of sendTermInit, on the main thread; all others are the listener's. */
  datatype Event =
    | Accept(conn: nat, hostKey: string)
    | NodePdu(conn: nat, pdu: Pdu)
    | Disconnect(conn: nat, fdOpen: bool)
    | PollError(conn: nat)
    | WriteReady(conn: nat, soError: bool, epollOk: bool, sent: bool)
    | XappMessage(meid: string, kind: XappKind, sent: bool)
    | ClearAll(keys: seq<string>)
    | TermInit

  // ----- names -----

  /** memcpy of strlen(name) characters over an older, NUL-terminated name. */
  function Overlay(older: string, name: string): (r: string)
    ensures name <= r && |r| == (if |older| > |name| then |older| else |name|)
    ensures forall i :: |name| <= i < |older| ==> r[i] == older[i]
  {
    name + if |older| > |name| then older[|name|..] else ""
  }

  predicate ReservedKey(key: string) { "host:" <= key || "msg:" <= key }

  // ----- steps shared by several events -----

  function Emit(s: State, meid: Option<string>, sends: seq<Send>): State
  {
    s.(outbox := s.outbox + Emitted(meid, sends, s.transactionCounter),
       transactionCounter := s.transactionCounter + |sends|)
  }

  /** cleanHashEntry: both keys of the connection leave the registry, and it is freed. */
  function Cleaned(s: State, conn: nat): State
    requires conn in s.connections
  {
    var cu := s.connections[conn];
    s.(registry := s.registry - {cu.hostKey, cu.enodbName}, connections := s.connections - {conn})
  }

  function Forgotten(s: State, conn: nat): State
    requires conn in s.connections
  {
    Cleaned(s.(procedures := Without(s.procedures, s.connections[conn].enodbName)), conn)
  }

  /** sendSctpMsg: a failed write closes an established connection. */
  function Written(s: State, conn: nat, sent: bool): State
    requires conn in s.connections
  {
    if sent || !s.connections[conn].isConnected then s else Forgotten(s, conn)
  }

  function WithName(s: State, conn: nat, name: string): State
    requires conn in s.connections
  {
    s.(connections := s.connections[conn := s.connections[conn].(enodbName := name)])
  }

  // ----- E2 Setup: O-RAN E2AP section 8.3.1 -----

  /** collectSetupRequestData part way: the connection's name, the message's name, the registry keys set so far,
      the transaction id. */
  datatype Collected = Collected(peerName: string, name: string, keys: seq<string>, transactionId: int)

  function Collect(c: Collected, ies: seq<SetupIe>): Collected
    decreases |ies|
  {
    if ies == [] then c
    else
      match ies[0]
      case NodeId(None) => c.(transactionId := -1)
      case NodeId(Some(built)) =>
        var name := Overlay(c.name, built);
        Collect(c.(peerName := built, name := name, keys := c.keys + [name]), ies[1..])
      case SetupTransactionId(id) => Collect(c.(transactionId := id), ies[1..])
      case OtherSetupIe => Collect(c, ies[1..])
  }

  function Setup(older: string, ies: seq<SetupIe>): Collected { Collect(Collected("", older, [], -1), ies) }

  function Bind(registry: map<string, nat>, keys: seq<string>, conn: nat): map<string, nat>
    decreases |keys|
  {
    if keys == [] then registry else Bind(registry[keys[0] := conn], keys[1..], conn)
  }

  function SetupStep(s: State, conn: nat, ies: seq<SetupIe>, encodes: bool): State
    requires conn in s.connections
  {
    var c := Setup(s.connections[conn].enodbName, ies);
    var named := WithName(s, conn, c.peerName).(registry := Bind(s.registry, c.keys, conn));
    if c.transactionId < 0 then named
    else
      var reported := Emit(named, Some(c.name), if encodes then [Send(RIC_E2_SETUP_REQ, None)] else []);
      reported.(procedures := WithSetup(s.procedures, c.name, c.transactionId))
  }

  // ----- Error Indication: O-RAN E2AP section 8.3.3 -----

  /** isRequiredIesPresent */
  datatype RequiredIes = RequiredIes(transactionId: bool, requestId: bool, cause: bool)

  function IesPresent(ies: seq<ErrorIe>, setupId: int): RequiredIes
  {
    RequiredIes(ErrorTransactionId(setupId) in ies, ErrorRequestId in ies, ErrorCause in ies)
  }

  /** The procedure code of the last CriticalityDiagnostics that has one, or 0. */
  function DiagnosedCode(ies: seq<ErrorIe>): int
  {
    if ies == [] then 0
    else
      match ies[|ies| - 1]
      case Diagnostics(Some(code)) => code
      case _ => DiagnosedCode(ies[..|ies| - 1])
  }

  /** sendMsgTo */
  datatype Route = Route(toE2Manager: bool, toSubMgr: bool)

  const CODE_E2SETUP := 1
  const CODE_SERVICE_UPDATE := 7
  const CODE_SUBSCRIPTION := 8

  /** getSendMsgBitSetValue */
  function Routing(procedureCode: int, present: RequiredIes, status: ProcedureState): Route
  {
    var aboutSubscription := present.requestId && present.cause;
    if procedureCode == 0 then
      var forE2Manager := (status == SETUP_COMPLETED || status == SERVICE_UPDATE_ONGOING) && present.transactionId;
      Route(forE2Manager, !forE2Manager && status == SUBS_ONGOING && aboutSubscription)
    else if procedureCode == CODE_E2SETUP || procedureCode == CODE_SERVICE_UPDATE then Route(present.transactionId, false)
    else if procedureCode == CODE_SUBSCRIPTION then Route(false, aboutSubscription)
    else Route(false, false)
  }

  function ErrorSends(ies: seq<ErrorIe>, encodes: bool, entry: Handling): seq<Send>
  {
    var to := Routing(DiagnosedCode(ies), IesPresent(ies, entry.transactionId), entry.status);
    (if to.toE2Manager then (if encodes then [Send(RIC_E2_RIC_ERROR_INDICATION, None)] else [])
     else if to.toSubMgr then [Send(RIC_E2_RAN_ERROR_INDICATION, None)]
     else [])
    + [Send(RIC_ERROR_INDICATION, None)]
  }

  // ----- the other messages from nodes -----

  /** The instance id of the first RICrequestID. */
  function FirstRequest(ies: seq<RequestIe>): Option<int>
  {
    if ies == [] then None
    else if ies[0].RequestId? then Some(ies[0].instance)
    else FirstRequest(ies[1..])
  }

  /** What an accepted message makes the termination send, and the state it leaves the entry in. */
  datatype Reaction = Reaction(sends: seq<Send>, next: Option<ProcedureState>)

  function Plain(mtype: RmrType): Reaction { Reaction([Send(mtype, None)], None) }

  function React(pdu: Pdu, entry: Handling): Reaction
    requires !pdu.E2setup?
  {
    match pdu
    case ServiceUpdate(encodes) =>
      Reaction(if encodes then [Send(RIC_SERVICE_UPDATE, None)] else [], Some(SERVICE_UPDATE_ONGOING))
    case ConfigurationUpdate(encodes) => Reaction(if encodes then [Send(RIC_E2NODE_CONFIG_UPDATE, None)] else [], None)
    case ErrorIndication(ies, encodes) => Reaction(ErrorSends(ies, encodes, entry), None)
    case ResetRequest(encodes) => if encodes then Plain(RIC_E2_RESET_REQ) else Reaction([], None)
    case Indication(ies) =>
      (match FirstRequest(ies)
       case None => Reaction([], Some(INDICATION_ONGOING))
       case Some(instance) => Reaction([Send(RIC_INDICATION, Some(instance))], Some(INDICATION_COMPLETED)))
    case SubscriptionDeleteRequired => Plain(RIC_SUB_DEL_REQUIRED)
    case ResetResponse(encodes) => if encodes then Plain(RIC_E2_RESET_RESP) else Reaction([], None)
    case ControlAcknowledge(ies) =>
      (match FirstRequest(ies)
       case None => Reaction([], None)
       case Some(instance) => Reaction([Send(RIC_CONTROL_ACK, Some(instance))], Some(CONTROL_COMPLETED)))
    case SubscriptionResponse => Reaction([Send(RIC_SUB_RESP, None)], Some(INDICATION_ONGOING))
    case SubscriptionDeleteResponse => Reaction([Send(RIC_SUB_DEL_RESP, None)], Some(INDICATION_ONGOING))
    case ControlFailure(ies) =>
      (match FirstRequest(ies)
       case None => Reaction([], None)
       case Some(instance) => Reaction([Send(RIC_CONTROL_FAILURE, Some(instance))], None))
    case SubscriptionFailure => Plain(RIC_SUB_FAILURE)
    case SubscriptionDeleteFailure => Plain(RIC_SUB_FAILURE)
    case OtherInitiating => Reaction([], None)
    case OtherSuccessful => Reaction([], None)
    case OtherUnsuccessful => Reaction([], None)
    case UnknownPresent => Reaction([], None)
  }

  function GatedStep(s: State, name: string, pdu: Pdu): State
    requires !pdu.E2setup?
  {
    if name == "" || name !in s.procedures then s
    else
      var r := React(pdu, s.procedures[name]);
      var t := Emit(s, Some(name), r.sends);
      match r.next
      case None => t
      case Some(status) => t.(procedures := WithStatus(s.procedures, name, status))
  }

  function PduStep(s: State, conn: nat, pdu: Pdu): State
    requires conn in s.connections
  {
    if pdu.E2setup? then SetupStep(s, conn, pdu.setupIes, pdu.encodes)
    else GatedStep(s, s.connections[conn].enodbName, pdu)
  }

  // ----- messages from xApps -----

  /** The state set before the message is sent on, and the one set after. */
  function Before(kind: XappKind): Option<ProcedureState>
  {
    if kind.SUB_REQ? || kind.SUB_DEL_REQ? || kind.CONTROL_REQ? then Some(SETUP_COMPLETED) else None
  }

  function After(kind: XappKind): Option<ProcedureState>
  {
    match kind
    case SETUP_RESP(_) => Some(SETUP_COMPLETED)
    case SETUP_FAILURE(_) => Some(SETUP_COMPLETED)
    case SUB_REQ => Some(SUBS_ONGOING)
    case SUB_DEL_REQ => Some(SUBS_DEL_ONGOING)
    case CONTROL_REQ => Some(CONTROL_ONGOING)
    case SERVICE_QUERY(_) => Some(SERVICE_UPDATE_ONGOING)
    case _ => None
  }

  /** The message goes on to the node. */
  predicate Forwards(kind: XappKind)
  {
    match kind
    case XAPP_ERROR_INDICATION => true
    case SUB_REQ => true
    case SUB_DEL_REQ => true
    case CONTROL_REQ => true
    case KEEP_ALIVE_REQ => false
    case HEALTH_CHECK_REQ => false
    case UNSUPPORTED => false
    case _ => kind.encodes
  }

  function Marked(s: State, name: string, status: Option<ProcedureState>): State
  {
    match status
    case None => s
    case Some(st) => s.(procedures := WithStatus(s.procedures, name, st))
  }

  /** The connection a name is bound to, when it is not freed. */
  function Connection(s: State, name: string): Option<nat>
  {
    if name in s.registry && s.registry[name] in s.connections then Some(s.registry[name]) else None
  }

  function XappStep(s: State, meid: string, kind: XappKind, sent: bool): State
  {
    match kind
    case KEEP_ALIVE_REQ => Emit(s, None, [Send(E2_TERM_KEEP_ALIVE_RESP, None)])
    case HEALTH_CHECK_REQ => Emit(s, None, [Send(RIC_HEALTH_CHECK_RESP, None)])
    case _ =>
      var conn := Connection(s, meid);
      if conn.None? || !Forwards(kind) then s
      else
        var t := Written(Marked(s, meid, Before(kind)), conn.value, sent);
        if sent then Marked(t, meid, After(kind)) else t
  }

  /** RIC_SCTP_CLEAR_ALL over the keys in the order the map lists them. */
  function CloseAll(s: State, keys: seq<string>): State
    decreases |keys|
  {
    if keys == [] then s
    else
      var conn := Connection(s, keys[0]);
      if ReservedKey(keys[0]) || conn.None? then CloseAll(s, keys[1..])
      else
        var told := Emit(s, Some(s.connections[conn.value].enodbName), [Send(RIC_SCTP_CONNECTION_FAILURE, None)]);
        CloseAll(told.(connections := s.connections - {conn.value}), keys[1..])
  }

  function ClearStep(s: State, keys: seq<string>): State
  {
    CloseAll(s, keys).(registry := map[])
  }

  // ----- connections -----

  function FailureNotice(s: State, conn: nat): State
    requires conn in s.connections
  {
    Emit(s, Some(s.connections[conn].enodbName), [Send(RIC_SCTP_CONNECTION_FAILURE, None)])
  }

  function DisconnectStep(s: State, conn: nat, fdOpen: bool): State
    requires conn in s.connections
  {
    var t := FailureNotice(s, conn);
    if fdOpen then Forgotten(t, conn)
    else t.(procedures := Without(s.procedures, s.connections[conn].enodbName))
  }

  /** handleEinprogressMessages */
  function WriteReadyStep(s: State, conn: nat, soError: bool, epollOk: bool, sent: bool): State
    requires conn in s.connections
  {
    if soError then FailureNotice(s, conn)
    else
      var t := s.(connections := s.connections[conn := s.connections[conn].(isConnected := true)]);
      if epollOk then Written(t, conn, sent) else Forgotten(t, conn)
  }

  // ----- runs -----

  /** A connection the kernel hands out is not one in use, its key starts with "host:", events name live
      connections, and a listing of the registry names every key once. */
  predicate Enabled(s: State, ev: Event)
  {
    match ev
    case Accept(conn, hostKey) => conn !in s.connections && "host:" <= hostKey
    case NodePdu(conn, _) => conn in s.connections
    case Disconnect(conn, _) => conn in s.connections
    case PollError(conn) => conn in s.connections
    case WriteReady(conn, _, _, _) => conn in s.connections
    case XappMessage(_, _, _) => true
    case ClearAll(keys) => (set k | k in keys) == s.registry.Keys && forall i, j :: 0 <= i < j < |keys| ==> keys[i] != keys[j]
    case TermInit => true
  }

  function Step(s: State, ev: Event): State
    requires Enabled(s, ev)
  {
    match ev
    case Accept(conn, hostKey) => s.(connections := s.connections[conn := Cu("", hostKey, false)])
    case NodePdu(conn, pdu) => PduStep(s, conn, pdu)
    case Disconnect(conn, fdOpen) => DisconnectStep(s, conn, fdOpen)
    case PollError(conn) => Forgotten(FailureNotice(s, conn), conn)
    case WriteReady(conn, soError, epollOk, sent) => WriteReadyStep(s, conn, soError, epollOk, sent)
    case XappMessage(meid, kind, sent) => XappStep(s, meid, kind, sent)
    case ClearAll(keys) => ClearStep(s, keys)
    case TermInit => Emit(s, None, [Send(E2_TERM_INIT, None)])
  }
}
