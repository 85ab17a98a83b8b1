// The client of bluez-async-ots/src/lib.rs: feature gates, requests and answers, moves through
// the object list, and transfers of object contents.

module Client {
  import opened Wrappers
  import opened Bytes
  import opened Errors
  import opened Utf8
  import opened Uuids
  import opened ControlPoint
  import opened Server

  /** `Bluetooth` stands for a failed characteristic read, `Io` for a channel that ended early. */
  datatype ClientError = Core(error: Error) | NotSupported | BadReply | Bluetooth | Io

  type ClientResult<+T> = Result<T, ClientError>

  function Lift<T>(r: CoreResult<T>): ClientResult<T> {
    r.MapErr(e => Core(e))
  }

  /** What the client learned about the server: its features and its optional characteristics. */
  datatype Config = Config(actionFeatures: u32, listFeatures: u32, hasListPoint: bool, hasId: bool)

  // ---------- gates ----------

  /** One call of a function generated by the table `impl_fns`. */
  datatype Call = Act(action: ActionReq) | Browse(list: ListReq)

  function ActionGate(req: ActionReq): (mask: nat)
    ensures mask > 0
  {
    match req
    case Create(_, _) => 0x01 case Delete => 0x02 case CheckSum(_, _) => 0x04 case Execute(_) => 0x08
    case Read(_, _) => 0x10 case Write(_, _, _) => 0x20 case Abort => 0x200
  }

  function ListGate(req: ListReq): (mask: Option<nat>)
    ensures mask.Some? ==> mask.value > 0
  {
    match req
    case GoTo(_) => Some(0x01) case Order(_) => Some(0x02) case NumberOf => Some(0x04) case ClearMark => Some(0x08)
    case _ => None
  }

  /** What the call writes, or why it writes nothing. */
  function Request(cfg: Config, call: Call): ClientResult<Sent> {
    match call
    case Act(req) =>
      if !Contains(cfg.actionFeatures, ActionGate(req)) then Err(NotSupported)
      else Ok(Sent(ActionPoint, ActionReqBytes(req)))
    case Browse(req) =>
      if ListGate(req).Some? && !Contains(cfg.listFeatures, ListGate(req).value) then Err(NotSupported)
      else if !cfg.hasListPoint then Err(NotSupported)
      else Ok(Sent(ListPoint, ListReqBytes(req)))
  }

  datatype Reply = Done | Count(count: u32) | Sum(value: u32) | Param(param: seq<byte>)

  /** What the call returns for the bytes it is answered with. */
  function Interpret(call: Call, raw: seq<byte>): ClientResult<Reply> {
    match call
    case Act(req) => (
      var res :- Lift(ParseActionRes(raw));
      match res
      case ActionDone => if req.CheckSum? || req.Execute? then Err(BadReply) else Ok(Done)
      case ActionSum(value) => if req.CheckSum? then Ok(Sum(value)) else Err(BadReply)
      case ActionParam(param) => if req.Execute? then Ok(Param(param)) else Err(BadReply))
    case Browse(req) => (
      var res :- Lift(ParseListRes(raw));
      match res
      case ListDone => if req.NumberOf? then Err(BadReply) else Ok(Done)
      case ListCount(count) => if req.NumberOf? then Ok(Count(count)) else Err(BadReply))
  }

  /** The encoding of a call, gates aside. */
  function Encoding(call: Call): Sent {
    match call
    case Act(req) => Sent(ActionPoint, ActionReqBytes(req))
    case Browse(req) => Sent(ListPoint, ListReqBytes(req))
  }

  /** What a server may see, told from the bytes alone: a known opcode, on a control point that
      exists, whose feature bit, if the opcode has one, is set. */
  predicate Permitted(cfg: Config, sent: Sent) {
    sent.bytes != [] &&
    match sent.point
    case ListPoint =>
      && cfg.hasListPoint
      && match sent.bytes[0] {
           case 1 => true case 2 => true case 3 => true case 4 => true
           case 5 => Contains(cfg.listFeatures, 0x01)
           case 6 => Contains(cfg.listFeatures, 0x02)
           case 7 => Contains(cfg.listFeatures, 0x04)
           case 8 => Contains(cfg.listFeatures, 0x08)
           case _ => false
         }
    case ActionPoint =>
      match sent.bytes[0] {
        case 1 => Contains(cfg.actionFeatures, 0x01)
        case 2 => Contains(cfg.actionFeatures, 0x02)
        case 3 => Contains(cfg.actionFeatures, 0x04)
        case 4 => Contains(cfg.actionFeatures, 0x08)
        case 5 => Contains(cfg.actionFeatures, 0x10)
        case 6 => Contains(cfg.actionFeatures, 0x20)
        case 7 => Contains(cfg.actionFeatures, 0x200)
        case _ => false
      }
  }

  lemma GateExactly(cfg: Config, call: Call)
    ensures Request(cfg, call) == if Permitted(cfg, Encoding(call)) then Ok(Encoding(call)) else Err(NotSupported)
  {
    hide Contains;
  }

  /** A refusal comes back as its code; a success counts only if it is of the kind the call
      expects, and then brings the value sent. */
  lemma ActionReply(req: ActionReq, op: ActionOp, rc: ActionRc, payload: seq<byte>)
    ensures var r := Interpret(Act(req), ActionResBytes(op, rc, payload));
            if rc != ActionSuccess then r == Err(Core(ActionError(rc)))
            else if op == OpCheckSum && |payload| != 4 then r.Err?
            else if req.CheckSum? then r == if op == OpCheckSum then Ok(Sum(LeU32(payload))) else Err(BadReply)
            else if req.Execute? then r == if op == OpExecute then Ok(Param(payload)) else Err(BadReply)
            else r == if op == OpCheckSum || op == OpExecute then Err(BadReply) else Ok(Done)
  {
    hide ParseActionRes, ActionResBytes, LeU32;
    ActionResInverse(op, rc, payload);
  }

  lemma ListReply(req: ListReq, op: ListOp, rc: ListRc, payload: seq<byte>)
    ensures var r := Interpret(Browse(req), ListResBytes(op, rc, payload));
            if rc != ListSuccess then r == Err(Core(ListError(rc)))
            else if op == OpNumberOf && |payload| != 4 then r.Err?
            else if req.NumberOf? then r == if op == OpNumberOf then Ok(Count(LeU32(payload))) else Err(BadReply)
            else r == if op == OpNumberOf then Err(BadReply) else Ok(Done)
  {
    hide ParseListRes, ListResBytes, LeU32;
    ListResInverse(op, rc, payload);
  }

  // ---------- exchanges ----------

  /** One call against the server. */
  function Perform(cfg: Config, st: State, call: Call): (r: (State, ClientResult<Reply>))
    requires Valid(st)
    ensures Valid(r.0)
  {
    match Request(cfg, call)
    case Err(e) => (st, Err(e))
    case Ok(sent) =>
      var (st', raw) := Serve(st, sent);
      (st', Interpret(call, raw))
  }

  /** What a successful answer is to a call: the kind the table names for it, or a fault. */
  function Success(call: Call, payload: seq<byte>): ClientResult<Reply> {
    if (call.Act? && call.action.CheckSum?) || (call.Browse? && call.list.NumberOf?) then
      if |payload| < 4 then Err(Core(NotEnoughData(|payload|, 4)))
      else if |payload| > 4 then Err(Core(TooManyData(|payload|, 4)))
      else Ok(if call.Act? then Sum(LeU32(payload)) else Count(LeU32(payload)))
    else if call.Act? && call.action.Execute? then Ok(Param(payload))
    else Ok(Done)
  }

  /** Every action call: refused unseen, or the server's code for the reduced request if that is
      a refusal, or the reply of the kind expected. */
  lemma ActionCallExactly(cfg: Config, st: State, req: ActionReq)
    requires Valid(st)
    ensures var sent := Sent(ActionPoint, ActionReqBytes(req));
            var (transfer, rc, payload) := ActionAnswer(st, ReducedAction(req));
            && (!req.Read? && !req.Write? ==>
                  var open := st.others.action(ReducedAction(req));
                  transfer == Idle && rc == open.0 && payload == open.1)
            && Perform(cfg, st, Act(req)) ==
            if !Permitted(cfg, sent) then (st, Err(NotSupported))
            else (st.(transfer := transfer, log := st.log + [sent]),
                  if rc != ActionSuccess then Err(Core(ActionError(rc))) else Success(Act(req), payload))
  {
    hide DecodeActionReq, ActionReqBytes, ParseActionRes, ActionResBytes, Permitted, LeU32, Contains;
    GateExactly(cfg, Act(req));
    ActionReqInverse(req);
    var (transfer, rc, payload) := ActionAnswer(st, ReducedAction(req));
    var raw := ActionResBytes(ActionReqOp(req), rc, payload);
    ActionReply(req, ActionReqOp(req), rc, payload);
    if req.CheckSum? {
      SumFault(rc, payload);
    }
  }

  lemma SumFault(rc: ActionRc, payload: seq<byte>)
    ensures rc == ActionSuccess && |payload| != 4 ==>
              ParseActionRes(ActionResBytes(OpCheckSum, rc, payload)) ==
              Err(if |payload| < 4 then NotEnoughData(|payload|, 4) else TooManyData(|payload|, 4))
  {
    ActionResFaults(ActionResBytes(OpCheckSum, rc, payload));
  }

  /** Every list call, likewise. */
  lemma ListCallExactly(cfg: Config, st: State, req: ListReq)
    requires Valid(st)
    ensures var sent := Sent(ListPoint, ListReqBytes(req));
            var (cursor, rc, payload) := ListAnswer(st, ReducedList(req));
            && (req.Order? || req.ClearMark? ==>
                  var open := st.others.list(req);
                  cursor == st.cursor && rc == open.0 && payload == open.1)
            && Perform(cfg, st, Browse(req)) ==
            if !Permitted(cfg, sent) then (st, Err(NotSupported))
            else (st.(cursor := cursor, log := st.log + [sent]),
                  if rc != ListSuccess then Err(Core(ListError(rc))) else Success(Browse(req), payload))
  {
    hide DecodeListReq, ListReqBytes, ParseListRes, ListResBytes, Permitted, LeU32, Contains;
    GateExactly(cfg, Browse(req));
    ListReqInverse(req);
    var (cursor, rc, payload) := ListAnswer(st, ReducedList(req));
    ListReply(req, ListReqOp(req), rc, payload);
    if req.NumberOf? {
      CountFault(rc, payload);
    }
  }

  lemma CountFault(rc: ListRc, payload: seq<byte>)
    ensures rc == ListSuccess && |payload| != 4 ==>
              ParseListRes(ListResBytes(OpNumberOf, rc, payload)) ==
              Err(if |payload| < 4 then NotEnoughData(|payload|, 4) else TooManyData(|payload|, 4))
  {
    ListResFaults(ListResBytes(OpNumberOf, rc, payload));
  }

  function PerformAll(cfg: Config, st: State, calls: seq<Call>): (r: (State, seq<ClientResult<Reply>>))
    requires Valid(st)
    ensures Valid(r.0)
    decreases |calls|
  {
    hide Perform, Valid;
    if calls == [] then (st, []) else
    var (st1, first) := Perform(cfg, st, calls[0]);
    var (st2, others) := PerformAll(cfg, st1, calls[1..]);
    (st2, [first] + others)
  }

  /** The permitted encodings among those of `calls`, in order. */
  function PermittedOf(cfg: Config, calls: seq<Call>): (out: seq<Sent>)
    ensures forall sent | sent in out :: Permitted(cfg, sent)
  {
    if calls == [] then []
    else (if Permitted(cfg, Encoding(calls[0])) then [Encoding(calls[0])] else []) + PermittedOf(cfg, calls[1..])
  }

  /** Over any run of calls the server sees exactly the permitted ones: nothing that lacks its
      feature bit or its control point is ever written, and a refused call writes nothing. */
  lemma {:induction false} TraceIsGated(cfg: Config, st: State, calls: seq<Call>)
    requires Valid(st)
    ensures PerformAll(cfg, st, calls).0.log == st.log + PermittedOf(cfg, calls)
    decreases |calls|
  {
    hide Permitted, Encoding, ServeList, ServeAction, Interpret, Valid;
    if calls != [] {
      GateExactly(cfg, calls[0]);
      TraceIsGated(cfg, Perform(cfg, st, calls[0]).0, calls[1..]);
    }
  }

  // ---------- moves through the list ----------

  datatype Move = ToFirst | ToLast | Back | Forward | Jump(id: u64)

  function MoveReq(move: Move): ListReq {
    match move
    case ToFirst => First case ToLast => Last case Back => Previous case Forward => Next case Jump(id) => GoTo(id)
  }

  /** `first`, `last`, `previous`, `next` and `go_to`: the last three turn one refusal each
      into `false`. */
  function Moved(cfg: Config, st: State, move: Move): (r: (State, ClientResult<bool>))
    requires Valid(st)
    ensures Valid(r.0)
  {
    var (st', r) := Perform(cfg, st, Browse(MoveReq(move)));
    (st', MoveResult(move, r))
  }

  function MoveResult(move: Move, r: ClientResult<Reply>): ClientResult<bool> {
    match r
    case Ok(_) => Ok(true)
    case Err(e) =>
      if (move.Back? || move.Forward?) && e == Core(ListError(OutOfBounds)) then Ok(false)
      else if move.Jump? && e == Core(ListError(ObjectIdNotFound)) then Ok(false)
      else Err(e)
  }

  /** The same moves on a plain list with a position. */
  function ListMove(objects: seq<Object>, cursor: Option<nat>, move: Move): (r: (Option<nat>, ClientResult<bool>))
    requires cursor.Some? ==> cursor.value < |objects|
    ensures r.0.Some? ==> r.0.value < |objects|
  {
    var n := |objects|;
    match move
    case ToFirst => if n == 0 then (cursor, Err(Core(ListError(NoObject)))) else (Some(0), Ok(true))
    case ToLast => if n == 0 then (cursor, Err(Core(ListError(NoObject)))) else (Some(n - 1), Ok(true))
    case Back =>
      if cursor.None? then (cursor, Err(Core(ListError(ListOperationFailed))))
      else if cursor.value == 0 then (cursor, Ok(false))
      else (Some(cursor.value - 1), Ok(true))
    case Forward =>
      if cursor.None? then (cursor, Err(Core(ListError(ListOperationFailed))))
      else if cursor.value + 1 == n then (cursor, Ok(false))
      else (Some(cursor.value + 1), Ok(true))
    case Jump(id) =>
      var k := IndexOf(objects, id);
      if k.Some? then (k, Ok(true)) else (cursor, Ok(false))
  }

  /** Moves on and back undo each other, and the two ends are where they stop. */
  lemma NeighboursUndo(objects: seq<Object>, k: nat)
    requires k < |objects|
    ensures var (on, r) := ListMove(objects, Some(k), Forward);
            && (r == Ok(true) <==> k + 1 < |objects|) && (r == Ok(false) <==> on == Some(k))
            && (r == Ok(true) ==> ListMove(objects, on, Back) == (Some(k), Ok(true)))
    ensures var (back, r) := ListMove(objects, Some(k), Back);
            && (r == Ok(true) <==> k > 0) && (r == Ok(false) <==> back == Some(k))
            && (r == Ok(true) ==> ListMove(objects, back, Forward) == (Some(k), Ok(true)))
    ensures ListMove(objects, ListMove(objects, Some(k), ToFirst).0, Back).1 == Ok(false)
    ensures ListMove(objects, ListMove(objects, Some(k), ToLast).0, Forward).1 == Ok(false)
  {
  }

  /** What of a move reaches the server: an identifier is cut to 48 bits. */
  function ReducedMove(move: Move): Move {
    if move.Jump? then Jump(move.id % 0x1_0000_0000_0000) else move
  }

  predicate MoveAllowed(cfg: Config, move: Move) {
    cfg.hasListPoint && (move.Jump? ==> Contains(cfg.listFeatures, 0x01))
  }

  /** A move told without the wire: refused unseen, or the move on the list and one request. */
  function ListMoved(cfg: Config, st: State, move: Move): (r: (State, ClientResult<bool>))
    requires Valid(st)
    ensures Valid(r.0)
    ensures r.0.objects == st.objects && r.0.transfer == st.transfer
    ensures MoveAllowed(cfg, move) ==>
              (r.0.cursor, r.1) == ListMove(st.objects, st.cursor, ReducedMove(move)) && |r.0.log| == |st.log| + 1
    ensures !MoveAllowed(cfg, move) ==> r == (st, Err(NotSupported))
  {
    if !MoveAllowed(cfg, move) then (st, Err(NotSupported)) else
    var (cursor, r) := ListMove(st.objects, st.cursor, ReducedMove(move));
    (st.(cursor := cursor, log := st.log + [Sent(ListPoint, ListReqBytes(MoveReq(move)))]), r)
  }

  /** A move over the wire is the move on the list: same position, same result. */
  lemma MoveIsListMove(cfg: Config, st: State, move: Move)
    requires Valid(st)
    ensures Moved(cfg, st, move) == ListMoved(cfg, st, move)
  {
    hide DecodeListReq, ListReqBytes, ParseListRes, ListResBytes, Contains;
    var req := MoveReq(move);
    ListReqInverse(req);
    var (cursor, rc, payload) := ListAnswer(st, ReducedList(req));
    ListResInverse(ListReqOp(req), rc, payload);
  }

  function MoveAll(cfg: Config, st: State, moves: seq<Move>): (r: (State, seq<ClientResult<bool>>))
    requires Valid(st)
    ensures Valid(r.0)
    decreases |moves|
  {
    hide Moved, Valid;
    if moves == [] then (st, []) else
    var (st1, first) := Moved(cfg, st, moves[0]);
    var (st2, others) := MoveAll(cfg, st1, moves[1..]);
    (st2, [first] + others)
  }

  /** The same run on the plain list, where a move that is not allowed is skipped. */
  function ListMoves(cfg: Config, objects: seq<Object>, cursor: Option<nat>, moves: seq<Move>)
    : (r: (Option<nat>, seq<ClientResult<bool>>))
    requires cursor.Some? ==> cursor.value < |objects|
    ensures r.0.Some? ==> r.0.value < |objects|
    decreases |moves|
  {
    if moves == [] then (cursor, []) else
    var (c1, first) := if MoveAllowed(cfg, moves[0]) then ListMove(objects, cursor, ReducedMove(moves[0]))
                       else (cursor, Err(NotSupported));
    var (c2, others) := ListMoves(cfg, objects, c1, moves[1..]);
    (c2, [first] + others)
  }

  function AllowedCount(cfg: Config, moves: seq<Move>): nat {
    if moves == [] then 0 else (if MoveAllowed(cfg, moves[0]) then 1 else 0) + AllowedCount(cfg, moves[1..])
  }

  /** Any run of moves over the wire simulates the same run on the list, with one request for
      each allowed move, and leaves the objects alone. */
  lemma {:induction false} MovesSimulate(cfg: Config, st: State, moves: seq<Move>)
    requires Valid(st)
    ensures var (st', results) := MoveAll(cfg, st, moves);
            && (st'.cursor, results) == ListMoves(cfg, st.objects, st.cursor, moves)
            && st'.objects == st.objects && st'.transfer == st.transfer
            && |st'.log| == |st.log| + AllowedCount(cfg, moves)
    decreases |moves|
  {
    hide Moved, Valid, ListMove, ReducedMove, MoveAllowed;
    if moves != [] {
      MoveIsListMove(cfg, st, moves[0]);
      MovesSimulate(cfg, Moved(cfg, st, moves[0]).0, moves[1..]);
    }
  }

  /** A jump finds the object asked for, or reports there is none, unless the identifier is too
      wide for the wire and its low 48 bits name some object: then that object is selected. */
  lemma JumpIsExact(cfg: Config, st: State, id: u64)
    requires Valid(st) && MoveAllowed(cfg, Jump(id))
    ensures var (cursor, r) := ListMove(st.objects, st.cursor, Jump(id));
            (Moved(cfg, st, Jump(id)).0.cursor == cursor && Moved(cfg, st, Jump(id)).1 == r) <==>
            id < 0x1_0000_0000_0000 || IndexOf(st.objects, id % 0x1_0000_0000_0000).None?
  {
    hide Moved;
    MoveIsListMove(cfg, st, Jump(id));
    assert ReducedMove(Jump(id)) == Jump(id % 0x1_0000_0000_0000);
    if id >= 0x1_0000_0000_0000 {
      WideIdIsUnknown(st.objects, id);
    }
  }

  lemma {:induction false} WideIdIsUnknown(objects: seq<Object>, id: u64)
    requires id >= 0x1_0000_0000_0000
    ensures IndexOf(objects, id).None?
  {
    if objects != [] {
      WideIdIsUnknown(objects[1..], id);
    }
  }

  /** Counting the objects over the wire. */
  lemma CountIsLength(cfg: Config, st: State)
    requires Valid(st) && cfg.hasListPoint && Contains(cfg.listFeatures, 0x04)
    ensures Perform(cfg, st, Browse(NumberOf)).1 == Ok(Count(|st.objects| % 0x1_0000_0000))
  {
    hide DecodeListReq, ListReqBytes, ParseListRes, ListResBytes, Contains;
    ListReqInverse(NumberOf);
    ListResInverse(OpNumberOf, ListSuccess, LeBytes(|st.objects|, 4));
    Widths();
    LeValueOfBytes(|st.objects|, 4);
  }

  // ---------- characteristics of the current object ----------

  datatype Sizes = Sizes(current: u32, allocatedSize: u32)

  function ParseId(raw: seq<byte>): CoreResult<u48> {
    var _ :- CheckLenExact(|raw|, 6);
    Ok(LeU48(raw))
  }

  function ParseName(raw: seq<byte>): CoreResult<seq<byte>> {
    if ValidUtf8(raw) then Ok(raw) else Err(BadUtf8)
  }

  function ParseObjectSizes(raw: seq<byte>): CoreResult<Sizes> {
    var _ :- CheckLenExact(|raw|, 8);
    Ok(Sizes(LeU32(raw[..4]), LeU32(raw[4..])))
  }

  function ReadId(cfg: Config, st: State): ClientResult<Option<u48>>
    requires Valid(st)
  {
    if !cfg.hasId then Ok(None)
    else if Current(st).None? then Err(Bluetooth)
    else
      var id :- Lift(ParseId(LeBytes(Current(st).value.id, 6)));
      Ok(Some(id))
  }

  function ReadName(st: State): ClientResult<seq<byte>>
    requires Valid(st)
  {
    if Current(st).None? then Err(Bluetooth) else Lift(ParseName(Current(st).value.name))
  }

  function ReadType(st: State): ClientResult<Uuid>
    requires Valid(st)
  {
    if Current(st).None? then Err(Bluetooth) else Lift(UuidFromRaw(Current(st).value.kind))
  }

  function ReadSizes(st: State): ClientResult<Sizes>
    requires Valid(st)
  {
    if Current(st).None? then Err(Bluetooth) else
    var o := Current(st).value;
    Lift(ParseObjectSizes(LeBytes(|o.content|, 4) + LeBytes(o.allocatedSize, 4)))
  }

  /** What the client reads of the current object: identifier and sizes as they are, since both
      fit their fields, the name if it is text, the type if its width is known. */
  lemma CharacteristicsAreExact(cfg: Config, st: State)
    requires Valid(st) && st.cursor.Some?
    ensures var o := st.objects[st.cursor.value];
            && ReadId(cfg, st) == Ok(if cfg.hasId then Some(o.id) else None)
            && ReadSizes(st) == Ok(Sizes(|o.content|, o.allocatedSize))
            && ReadName(st) == (if ValidUtf8(o.name) then Ok(o.name) else Err(Core(BadUtf8)))
            && ReadType(st) == (if |o.kind| in {2, 4, 16} then Ok(UuidFromRaw(o.kind).value)
                                else Err(Core(BadUuidSize(|o.kind|))))
  {
    hide LeBytes, ShortUuid, ValidUtf8;
    var o := Current(st).value;
    Widths();
    LeFits(o.id, 6);
    LeFits(|o.content|, 4);
    LeFits(o.allocatedSize, 4);
    var raw := LeBytes(|o.content|, 4) + LeBytes(o.allocatedSize, 4);
    assert raw[..4] == LeBytes(|o.content|, 4) && raw[4..] == LeBytes(o.allocatedSize, 4);
  }

  /** Without a current object every read fails, but for an identifier that is never asked for. */
  lemma NoCurrentObject(cfg: Config, st: State)
    requires Valid(st) && st.cursor.None?
    ensures Current(st).None?
    ensures ReadId(cfg, st) == if cfg.hasId then Err(Bluetooth) else Ok(None)
    ensures ReadSizes(st) == Err(Bluetooth) && ReadName(st) == Err(Bluetooth) && ReadType(st) == Err(Bluetooth)
  {
  }

  /** Identifier and sizes of any bytes: the width must be right, and then it is low bytes first. */
  lemma FixedWidths(raw: seq<byte>)
    ensures ParseId(raw) ==
            if |raw| < 6 then Err(NotEnoughData(|raw|, 6))
            else if |raw| > 6 then Err(TooManyData(|raw|, 6))
            else Ok(LeU48(raw))
    ensures ParseObjectSizes(raw) ==
            if |raw| < 8 then Err(NotEnoughData(|raw|, 8))
            else if |raw| > 8 then Err(TooManyData(|raw|, 8))
            else Ok(Sizes(
              raw[0] as int + 0x100 * raw[1] as int + 0x1_0000 * raw[2] as int + 0x100_0000 * raw[3] as int,
              raw[4] as int + 0x100 * raw[5] as int + 0x1_0000 * raw[6] as int + 0x100_0000 * raw[7] as int))
  {
    hide LeU32, LeU48;
    if |raw| == 8 {
      LeU32Value(raw[..4]);
      LeU32Value(raw[4..]);
    }
  }

  // ---------- transfers ----------

  /** `read_exact` on the channel. */
  function Drain(st: State, length: nat): ClientResult<seq<byte>> {
    if st.transfer.Outgoing? && length <= |st.transfer.data| then Ok(st.transfer.data[..length]) else Err(Io)
  }

  /** Ask for a range of the current object and read it from the channel. */
  function Fetch(cfg: Config, st: State, offset: u64, length: u64): (r: (State, ClientResult<seq<byte>>))
    requires Valid(st)
    ensures Valid(r.0)
  {
    var (st', r) := Perform(cfg, st, Act(Read(offset, length)));
    (st', if r.Err? then Err(r.error) else Drain(st', length))
  }

  /** What reading a range comes to. The server sees the low 32 bits of the numbers only; the
      bytes returned are the ones it picked, and a longer wish ends the channel early. */
  lemma FetchExactly(cfg: Config, st: State, offset: u64, length: u64)
    requires Valid(st)
    ensures var start, n := Low32(offset), Low32(length);
            Fetch(cfg, st, offset, length).1 ==
            if !Contains(cfg.actionFeatures, 0x10) then Err(NotSupported)
            else if Current(st).None? then Err(Core(ActionError(InvalidObject)))
            else if !Contains(Current(st).value.properties, 0x04)
            then Err(Core(ActionError(ProcedureNotPermitted)))
            else if start + n > |Current(st).value.content| then Err(Core(ActionError(ActionInvalidParameter)))
            else if length != n then Err(Io)
            else Ok(Current(st).value.content[start..start + n])
    ensures Fetch(cfg, st, offset, length).0 ==
            if !Contains(cfg.actionFeatures, 0x10) then st
            else st.(transfer := ActionAnswer(st, ReducedAction(Read(offset, length))).0,
                     log := st.log + [Sent(ActionPoint, ActionReqBytes(Read(offset, length)))])
  {
    hide DecodeActionReq, ActionReqBytes, ParseActionRes, ActionResBytes, Contains, Valid;
    var req := Read(offset, length);
    ActionReqInverse(req);
    var (transfer, rc, payload) := ActionAnswer(st, ReducedAction(req));
    ActionResInverse(OpRead, rc, []);
    if transfer.Outgoing? && length == Low32(length) {
      assert transfer.data[..length] == transfer.data;
    }
  }

  /** The part of a wish for `length` bytes at `offset` that lies within `size`. */
  function Clamped(length: nat, size: nat, offset: nat): (n: nat)
    requires offset <= size
    ensures offset + n <= size && n <= length
    ensures n == length || offset + n == size
  {
    Min(length, size - offset)
  }

  /** A range within an object's reported size reaches the server unaltered. */
  lemma ClampedIsUnaltered(offset: nat, length: nat, size: u32, mode: byte)
    requires offset + length <= size
    ensures DecodeActionReq(ActionReqBytes(Read(offset, length))) == Some(Read(offset, length))
    ensures DecodeActionReq(ActionReqBytes(Write(offset, length, mode))) == Some(Write(offset, length, mode))
  {
    hide DecodeActionReq, ActionReqBytes;
    ActionReqInverse(Read(offset, length));
    ActionReqInverse(Write(offset, length, mode));
  }

  /** A clamped read gets the bytes asked for, wherever reading is granted at all. */
  lemma FetchClamped(cfg: Config, st: State, offset: nat, n: nat)
    requires Valid(st) && Current(st).Some? && offset + n <= |Current(st).value.content|
    ensures var (st', r) := Fetch(cfg, st, offset, n);
            var gate := Contains(cfg.actionFeatures, 0x10);
            var granted := gate && Contains(Current(st).value.properties, PROPERTY_READ);
            var range := Current(st).value.content[offset..offset + n];
            && (if granted then r == Ok(range) else r.Err? && r.error != Io)
            && st' == st.(transfer := if granted then Outgoing(range) else if gate then Idle else st.transfer,
                          log := st.log + Announced(cfg, Read(offset, n)))
  {
    hide Fetch, ActionReqBytes, Contains, Valid;
    FetchExactly(cfg, st, offset, n);
  }

  /** Reading without a length asks for the whole size from the offset on; the server grants
      that only if the offset vanishes modulo 2^32. */
  lemma WholeReadOnlyFromStart(cfg: Config, st: State, offset: u64)
    requires Valid(st) && st.cursor.Some?
    requires Contains(cfg.actionFeatures, 0x10) && Contains(Current(st).value.properties, PROPERTY_READ)
    ensures Fetch(cfg, st, offset, |Current(st).value.content|).1.Ok? <==> Low32(offset) == 0
    ensures Low32(offset) == 0 ==>
              Fetch(cfg, st, offset, |Current(st).value.content|).1 == Ok(Current(st).value.content)
  {
    hide Fetch, Contains;
    var content := Current(st).value.content;
    FetchExactly(cfg, st, offset, |content|);
    assert content[0..|content|] == content;
  }

  /** Announce a range of the current object and send its new bytes. */
  function Store(cfg: Config, st: State, offset: u64, data: seq<byte>, mode: byte): (r: (State, ClientResult<()>))
    requires Valid(st) && |data| < 0x1_0000_0000_0000_0000
    ensures Valid(r.0)
  {
    var (st', r) := Perform(cfg, st, Act(Write(offset, |data|, mode)));
    if r.Err? then (st', Err(r.error)) else (Upload(st', data), Ok(()))
  }

  predicate Writable(cfg: Config, st: State)
    requires Valid(st)
  {
    && Contains(cfg.actionFeatures, 0x20)
    && Current(st).Some? && Contains(Current(st).value.properties, PROPERTY_WRITE)
  }

  /** What storing a range within the allocated size comes to: the object holds its old bytes
      with the new ones in place, every other object is as it was. */
  lemma StoreExactly(cfg: Config, st: State, offset: nat, data: seq<byte>, mode: byte)
    requires Valid(st) && Current(st).Some? && offset + |data| <= Current(st).value.allocatedSize
    ensures var o := Current(st).value;
            var (st', r) := Store(cfg, st, offset, data, mode);
            && r == (if !Contains(cfg.actionFeatures, 0x20) then Err(NotSupported)
                     else if !Contains(o.properties, 0x08) then Err(Core(ActionError(ProcedureNotPermitted)))
                     else if offset > |o.content| then Err(Core(ActionError(ActionInvalidParameter)))
                     else Ok(()))
            && st'.cursor == st.cursor
            && st'.log == st.log + (if Contains(cfg.actionFeatures, 0x20)
                                    then [Sent(ActionPoint, ActionReqBytes(Write(offset, |data|, mode)))] else [])
            && st'.objects ==
               if r.Ok? then st.objects[st.cursor.value :=
                 o.(content := Patched(o.content, offset, data, Contains(mode, 0x02)))]
               else st.objects
  {
    hide DecodeActionReq, ActionReqBytes, ParseActionRes, ActionResBytes, Contains, Patched, Valid;
    var req := Write(offset, |data|, mode);
    ClampedIsUnaltered(offset, |data|, Current(st).value.allocatedSize, mode);
    var (transfer, rc, payload) := ActionAnswer(st, req);
    ActionResInverse(OpWrite, rc, []);
    assert data[..|data|] == data;
  }

  /** What was written is what is read back. */
  lemma StoreThenFetch(cfg: Config, st: State, offset: nat, data: seq<byte>, mode: byte)
    requires Valid(st) && Current(st).Some? && offset + |data| <= Current(st).value.allocatedSize
    requires Writable(cfg, st) && offset <= |Current(st).value.content|
    requires Contains(cfg.actionFeatures, 0x10) && Contains(Current(st).value.properties, PROPERTY_READ)
    ensures Fetch(cfg, Store(cfg, st, offset, data, mode).0, offset, |data|).1 == Ok(data)
  {
    hide Fetch, Store, Contains, Patched;
    StoreExactly(cfg, st, offset, data, mode);
    var st' := Store(cfg, st, offset, data, mode).0;
    assert Current(st').value.content[offset..offset + |data|] == data;
    FetchClamped(cfg, st', offset, |data|);
  }

  // ---------- the client object ----------

  class OtsClient {
    const cfg: Config
    const remote: Remote

    constructor (cfg: Config, remote: Remote)
      ensures this.cfg == cfg && this.remote == remote
    {
      this.cfg, this.remote := cfg, remote;
    }

    /** What every function of the table does: gate, encode, exchange, decode. */
    method Invoke(call: Call) returns (r: ClientResult<Reply>)
      requires Valid(remote.st)
      modifies remote
      ensures Valid(remote.st) && (remote.st, r) == Perform(cfg, old(remote.st), call)
    {
      hide Serve, Interpret, Contains, Valid;
      match call {
        case Act(req) =>
          if !Contains(cfg.actionFeatures, ActionGate(req)) {
            return Err(NotSupported);
          }
          var bytes := EncodeActionReq(req);
          var answer := remote.Exchange(Sent(ActionPoint, bytes));
          r := Interpret(call, answer);
        case Browse(req) =>
          if ListGate(req).Some? && !Contains(cfg.listFeatures, ListGate(req).value) {
            return Err(NotSupported);
          }
          if !cfg.hasListPoint {
            return Err(NotSupported);
          }
          var bytes := EncodeListReq(req);
          var answer := remote.Exchange(Sent(ListPoint, bytes));
          r := Interpret(call, answer);
      }
    }

    method First() returns (r: ClientResult<()>)
      requires Valid(remote.st)
      modifies remote
      ensures Valid(remote.st)
      ensures var (st, moved) := ListMoved(cfg, old(remote.st), ToFirst);
              remote.st == st && r == if moved.Ok? then Ok(()) else Err(moved.error)
    {
      hide Perform, ListMoved, Valid;
      MoveIsListMove(cfg, remote.st, ToFirst);
      var reply := Invoke(Browse(ControlPoint.First));
      r := if reply.Ok? then Ok(()) else Err(reply.error);
    }

    method Last() returns (r: ClientResult<()>)
      requires Valid(remote.st)
      modifies remote
      ensures Valid(remote.st)
      ensures var (st, moved) := ListMoved(cfg, old(remote.st), ToLast);
              remote.st == st && r == if moved.Ok? then Ok(()) else Err(moved.error)
    {
      hide Perform, ListMoved, Valid;
      MoveIsListMove(cfg, remote.st, ToLast);
      var reply := Invoke(Browse(ControlPoint.Last));
      r := if reply.Ok? then Ok(()) else Err(reply.error);
    }

    method Previous() returns (r: ClientResult<bool>)
      requires Valid(remote.st)
      modifies remote
      ensures Valid(remote.st) && (remote.st, r) == ListMoved(cfg, old(remote.st), Back)
    {
      hide Perform, ListMoved, Valid;
      MoveIsListMove(cfg, remote.st, Back);
      var reply := Invoke(Browse(ControlPoint.Previous));
      match reply {
        case Ok(_) => r := Ok(true);
        case Err(error) => r := if error == Core(ListError(OutOfBounds)) then Ok(false) else Err(error);
      }
    }

    method Next() returns (r: ClientResult<bool>)
      requires Valid(remote.st)
      modifies remote
      ensures Valid(remote.st) && (remote.st, r) == ListMoved(cfg, old(remote.st), Forward)
    {
      hide Perform, ListMoved, Valid;
      MoveIsListMove(cfg, remote.st, Forward);
      var reply := Invoke(Browse(ControlPoint.Next));
      match reply {
        case Ok(_) => r := Ok(true);
        case Err(error) => r := if error == Core(ListError(OutOfBounds)) then Ok(false) else Err(error);
      }
    }

    method GoTo(id: u64) returns (r: ClientResult<bool>)
      requires Valid(remote.st)
      modifies remote
      ensures Valid(remote.st) && (remote.st, r) == ListMoved(cfg, old(remote.st), Jump(id))
    {
      hide Perform, ListMoved, Valid;
      MoveIsListMove(cfg, remote.st, Jump(id));
      var reply := Invoke(Browse(ControlPoint.GoTo(id)));
      match reply {
        case Ok(_) => r := Ok(true);
        case Err(error) => r := if error == Core(ListError(ObjectIdNotFound)) then Ok(false) else Err(error);
      }
    }

    /** Read a range, or the current size's worth of bytes if no length is given. */
    method Read(offset: u64, length: Option<u64>) returns (r: ClientResult<seq<byte>>)
      requires Valid(remote.st)
      modifies remote
      ensures Valid(remote.st)
      ensures length.None? && Current(old(remote.st)).None? ==> r == Err(Bluetooth) && remote.st == old(remote.st)
      ensures length.Some? || Current(old(remote.st)).Some? ==>
                (remote.st, r) == Fetch(cfg, old(remote.st), offset,
                                        if length.Some? then length.value else |Current(old(remote.st)).value.content|)
    {
      hide Perform, ReadSizes, Valid;
      var wanted: u64 := 0;
      if length.Some? {
        wanted := length.value;
      } else {
        if remote.st.cursor.Some? {
          CharacteristicsAreExact(cfg, remote.st);
        } else {
          NoCurrentObject(cfg, remote.st);
        }
        var size :- ReadSizes(remote.st);
        wanted := size.current;
      }
      var _ :- Invoke(Act(ControlPoint.Read(offset, wanted)));
      r := Drain(remote.st, wanted);
    }

    /** Fill the front of `buffer` from the object, as far as both reach. */
    method ReadTo(offset: u64, buffer: array<byte>) returns (r: ClientResult<nat>)
      requires Valid(remote.st) && buffer.Length < 0x1_0000_0000_0000_0000
      requires Current(remote.st).Some? ==> offset <= |Current(remote.st).value.content|
      modifies remote, buffer
      ensures Valid(remote.st)
      ensures Current(old(remote.st)).None? ==> r == Err(Bluetooth) && remote.st == old(remote.st)
      ensures Current(old(remote.st)).Some? ==>
                var content := Current(old(remote.st)).value.content;
                var n := Clamped(buffer.Length, |content|, offset);
                var (st', fetched) := Fetch(cfg, old(remote.st), offset, n);
                && remote.st == st'
                && r == (if fetched.Ok? then Ok(n) else Err(fetched.error))
                && (r.Ok? <==> Contains(cfg.actionFeatures, 0x10)
                               && Contains(Current(old(remote.st)).value.properties, 0x04))
                && (r.Ok? ==> buffer[..] == content[offset..offset + n] + old(buffer[..])[n..])
                && remote.st.log == old(remote.st.log) + Announced(cfg, ControlPoint.Read(offset, n))
      ensures r.Err? ==> buffer[..] == old(buffer[..])
    {
      hide Perform, ReadSizes, Valid, Contains, ActionReqBytes;
      if remote.st.cursor.Some? {
        CharacteristicsAreExact(cfg, remote.st);
      } else {
        NoCurrentObject(cfg, remote.st);
      }
      var size :- ReadSizes(remote.st);
      var length := Min(buffer.Length, size.current - offset);
      FetchClamped(cfg, remote.st, offset, length);
      var _ :- Invoke(Act(ControlPoint.Read(offset, length)));
      match Drain(remote.st, length) {
        case Err(e) => return Err(e);
        case Ok(data) =>
          ghost var before := buffer[..];
          forall i | 0 <= i < length {
            buffer[i] := data[i];
          }
          assert buffer[..] == data + before[length..];
          r := Ok(length);
      }
    }

    /** Write the front of `data` to the object, as far as its allocated size reaches. */
    method Write(offset: u64, data: seq<byte>, mode: byte) returns (r: ClientResult<nat>)
      requires Valid(remote.st)
      requires Current(remote.st).Some? ==> offset <= Current(remote.st).value.allocatedSize
      modifies remote
      ensures Valid(remote.st)
      ensures Current(old(remote.st)).None? ==> r == Err(Bluetooth) && remote.st == old(remote.st)
      ensures Current(old(remote.st)).Some? ==>
                var n := Clamped(|data|, Current(old(remote.st)).value.allocatedSize, offset);
                var (st', stored) := Store(cfg, old(remote.st), offset, data[..n], mode);
                && remote.st == st'
                && r == (if stored.Ok? then Ok(n) else Err(stored.error))
                && remote.st.log == old(remote.st.log) + Announced(cfg, ControlPoint.Write(offset, n, mode))
    {
      hide Perform, ReadSizes, Valid, Contains, ActionReqBytes, Upload;
      if remote.st.cursor.Some? {
        CharacteristicsAreExact(cfg, remote.st);
      } else {
        NoCurrentObject(cfg, remote.st);
      }
      var size :- ReadSizes(remote.st);
      var length := Min(|data|, size.allocatedSize - offset);
      StoreExactly(cfg, remote.st, offset, data[..length], mode);
      var _ :- Invoke(Act(ControlPoint.Write(offset, length, mode)));
      remote.Receive(data[..length]);
      r := Ok(length);
    }

    /** Open a stream for reading: only the clamped request is sent. */
    method ReadStream(offset: u64, length: Option<u64>) returns (r: ClientResult<()>)
      requires Valid(remote.st)
      requires Current(remote.st).Some? ==> offset <= |Current(remote.st).value.content|
      modifies remote
      ensures Valid(remote.st)
      ensures Current(old(remote.st)).None? ==> r == Err(Bluetooth) && remote.st == old(remote.st)
      ensures Current(old(remote.st)).Some? ==>
                var size := |Current(old(remote.st)).value.content|;
                var n := Clamped(if length.Some? then length.value else size, size, offset);
                var (st', reply) := Perform(cfg, old(remote.st), Act(ControlPoint.Read(offset, n)));
                && remote.st == st'
                && r == (if reply.Ok? then Ok(()) else Err(reply.error))
                && remote.st.log == old(remote.st.log) + Announced(cfg, ControlPoint.Read(offset, n))
                && (r.Ok? ==> remote.st.transfer == Outgoing(Current(old(remote.st)).value.content[offset..offset + n]))
    {
      hide Perform, ReadSizes, Valid, Contains, ActionReqBytes;
      if remote.st.cursor.Some? {
        CharacteristicsAreExact(cfg, remote.st);
      } else {
        NoCurrentObject(cfg, remote.st);
      }
      var size :- ReadSizes(remote.st);
      var wanted := Min(if length.Some? then length.value else size.current, size.current - offset);
      FetchClamped(cfg, remote.st, offset, wanted);
      var _ :- Invoke(Act(ControlPoint.Read(offset, wanted)));
      r := Ok(());
    }

    /** Open a stream for writing: only the clamped request is sent. */
    method WriteStream(offset: u64, length: Option<u64>, mode: byte) returns (r: ClientResult<()>)
      requires Valid(remote.st)
      requires Current(remote.st).Some? ==> offset <= Current(remote.st).value.allocatedSize
      modifies remote
      ensures Valid(remote.st)
      ensures Current(old(remote.st)).None? ==> r == Err(Bluetooth) && remote.st == old(remote.st)
      ensures Current(old(remote.st)).Some? ==>
                var size := Current(old(remote.st)).value.allocatedSize;
                var n := Clamped(if length.Some? then length.value else size, size, offset);
                var (st', reply) := Perform(cfg, old(remote.st), Act(ControlPoint.Write(offset, n, mode)));
                && remote.st == st'
                && r == (if reply.Ok? then Ok(()) else Err(reply.error))
                && remote.st.log == old(remote.st.log) + Announced(cfg, ControlPoint.Write(offset, n, mode))
                && (r.Ok? ==> remote.st.transfer == Incoming(offset, n, Contains(mode, 0x02)))
    {
      hide ReadSizes, Valid, Contains, ActionReqBytes, DecodeActionReq, ParseActionRes, ActionResBytes;
      if remote.st.cursor.Some? {
        CharacteristicsAreExact(cfg, remote.st);
      } else {
        NoCurrentObject(cfg, remote.st);
      }
      var size :- ReadSizes(remote.st);
      var wanted := Min(if length.Some? then length.value else size.allocatedSize, size.allocatedSize - offset);
      ClampedIsUnaltered(offset, wanted, size.allocatedSize, mode);
      ghost var rc := ActionAnswer(remote.st, ControlPoint.Write(offset, wanted, mode)).1;
      ActionResInverse(OpWrite, rc, []);
      var _ :- Invoke(Act(ControlPoint.Write(offset, wanted, mode)));
      r := Ok(());
    }
  }

  /** The request as the server will see it, if its gate lets it out. */
  function Announced(cfg: Config, req: ActionReq): seq<Sent> {
    if Contains(cfg.actionFeatures, ActionGate(req)) then [Sent(ActionPoint, ActionReqBytes(req))] else []
  }
}
