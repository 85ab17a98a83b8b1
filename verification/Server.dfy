// A reference server: a list of objects and a current object, answering the control points as
// sections 3.3 and 3.4 of the Object Transfer Service 1.0 say. It is the partner the client is
// proved against. It reads, writes, moves through the list and counts; to every other operation it
// gives an answer that is left open, so what is proved holds whatever that answer is.

module Server {
  import opened Wrappers
  import opened Bytes
  import opened Errors
  import opened ControlPoint

  const PROPERTY_READ: byte := 0x04
  const PROPERTY_WRITE: byte := 0x08

  /** `kind` holds the bytes of the Object Type characteristic. */
  datatype Object = Object(
    id: u48,
    name: seq<byte>,
    kind: seq<byte>,
    content: seq<byte>,
    allocatedSize: u32,
    properties: byte)

  datatype Point = ActionPoint | ListPoint

  /** One write to a control point. */
  datatype Sent = Sent(point: Point, bytes: seq<byte>)

  /** What the object transfer channel is set up for. */
  datatype Transfer =
    | Idle
    | Outgoing(data: seq<byte>)
    | Incoming(offset: nat, length: nat, truncate: bool)

  /** The answers to the operations that are left open: a result code and what follows it. */
  datatype Others = Others(
    action: ActionReq -> (ActionRc, seq<byte>),
    list: ListReq -> (ListRc, seq<byte>))

  datatype State = State(
    objects: seq<Object>,
    cursor: Option<nat>,
    transfer: Transfer,
    log: seq<Sent>,
    others: Others)

  predicate Valid(st: State) {
    && (forall o | o in st.objects :: |o.content| <= o.allocatedSize)
    && (st.cursor.Some? ==> st.cursor.value < |st.objects|)
  }

  function Current(st: State): (o: Option<Object>)
    requires Valid(st)
    ensures o.Some? ==> |o.value.content| <= o.value.allocatedSize
  {
    match st.cursor
    case None => None
    case Some(k) => Some(st.objects[k])
  }

  /** The first object with the identifier. */
  function IndexOf(objects: seq<Object>, id: nat): (k: Option<nat>)
    ensures k.Some? ==> k.value < |objects| && objects[k.value].id == id
    ensures k.Some? ==> forall j | 0 <= j < k.value :: objects[j].id != id
    ensures k.None? ==> forall o | o in objects :: o.id != id
  {
    if objects == [] then None
    else if objects[0].id == id then Some(0)
    else match IndexOf(objects[1..], id)
      case None => None
      case Some(k) => Some(k + 1)
  }

  // ---------- the object list control point ----------

  function ListAnswer(st: State, req: ListReq): (answer: (Option<nat>, ListRc, seq<byte>))
    requires Valid(st)
    ensures answer.0.Some? ==> answer.0.value < |st.objects|
  {
    var n := |st.objects|;
    match req
    case First => if n == 0 then (st.cursor, NoObject, []) else (Some(0), ListSuccess, [])
    case Last => if n == 0 then (st.cursor, NoObject, []) else (Some(n - 1), ListSuccess, [])
    case Previous =>
      if st.cursor.None? then (st.cursor, ListOperationFailed, [])
      else if st.cursor.value == 0 then (st.cursor, OutOfBounds, [])
      else (Some(st.cursor.value - 1), ListSuccess, [])
    case Next =>
      if st.cursor.None? then (st.cursor, ListOperationFailed, [])
      else if st.cursor.value == n - 1 then (st.cursor, OutOfBounds, [])
      else (Some(st.cursor.value + 1), ListSuccess, [])
    case GoTo(id) =>
      var k := IndexOf(st.objects, id);
      if k.None? then (st.cursor, ObjectIdNotFound, []) else (k, ListSuccess, [])
    case NumberOf => (st.cursor, ListSuccess, LeBytes(n, 4))
    case _ =>
      var (rc, payload) := st.others.list(req);
      (st.cursor, rc, payload)
  }

  function ServeList(st: State, raw: seq<byte>): (r: (State, seq<byte>))
    requires Valid(st)
    ensures Valid(r.0)
  {
    match DecodeListReq(raw)
    case None => (st, ListResBytes(ListResponse, ListInvalidParameter, []))
    case Some(req) =>
      var (cursor, rc, payload) := ListAnswer(st, req);
      (st.(cursor := cursor), ListResBytes(ListReqOp(req), rc, payload))
  }

  // ---------- the object action control point ----------

  function ActionAnswer(st: State, req: ActionReq): (Transfer, ActionRc, seq<byte>)
    requires Valid(st)
  {
    match req
    case Read(offset, length) =>
      if Current(st).None? then (Idle, InvalidObject, []) else
      var o := Current(st).value;
      if !Contains(o.properties, PROPERTY_READ) then (Idle, ProcedureNotPermitted, [])
      else if offset + length > |o.content| then (Idle, ActionInvalidParameter, [])
      else (Outgoing(o.content[offset..offset + length]), ActionSuccess, [])
    case Write(offset, length, mode) =>
      if Current(st).None? then (Idle, InvalidObject, []) else
      var o := Current(st).value;
      if !Contains(o.properties, PROPERTY_WRITE) then (Idle, ProcedureNotPermitted, [])
      else if offset > |o.content| || offset + length > o.allocatedSize then (Idle, ActionInvalidParameter, [])
      else (Incoming(offset, length, Contains(mode, WRITE_TRUNCATE)), ActionSuccess, [])
    case _ =>
      var (rc, payload) := st.others.action(req);
      (Idle, rc, payload)
  }

  function ServeAction(st: State, raw: seq<byte>): (r: (State, seq<byte>))
    requires Valid(st)
    ensures Valid(r.0)
  {
    match DecodeActionReq(raw)
    case None => (st, ActionResBytes(ActionResponse, ActionInvalidParameter, []))
    case Some(req) =>
      var (transfer, rc, payload) := ActionAnswer(st, req);
      (st.(transfer := transfer), ActionResBytes(ActionReqOp(req), rc, payload))
  }

  /** One exchange: the server sees bytes, and answers with bytes. */
  function Serve(st: State, sent: Sent): (r: (State, seq<byte>))
    requires Valid(st)
    ensures Valid(r.0)
  {
    var (st', answer) := match sent.point
      case ListPoint => ServeList(st, sent.bytes)
      case ActionPoint => ServeAction(st, sent.bytes);
    (st'.(log := st.log + [sent]), answer)
  }

  // ---------- the object transfer channel ----------

  /** The contents after `data` was written at `offset`. */
  function Patched(content: seq<byte>, offset: nat, data: seq<byte>, truncate: bool): (r: seq<byte>)
    requires offset <= |content|
    ensures |r| <= Max(|content|, offset + |data|)
    ensures |r| >= offset + |data| && r[offset..offset + |data|] == data
    ensures r[..offset] == content[..offset]
    ensures !truncate && offset + |data| <= |content| ==> r[offset + |data|..] == content[offset + |data|..]
    ensures truncate ==> |r| == offset + |data|
  {
    content[..offset] + data +
    if truncate || offset + |data| >= |content| then [] else content[offset + |data|..]
  }

  /** The client writes `data` to the channel; the server takes what it agreed to. */
  function Upload(st: State, data: seq<byte>): (r: State)
    requires Valid(st)
    ensures Valid(r)
  {
    if !st.transfer.Incoming? || Current(st).None? then st else
    var o := Current(st).value;
    var t := st.transfer;
    var taken := data[..Min(t.length, |data|)];
    if t.offset > |o.content| || t.offset + |taken| > o.allocatedSize then st.(transfer := Idle) else
    var o' := o.(content := Patched(o.content, t.offset, taken, t.truncate));
    st.(objects := st.objects[st.cursor.value := o'], transfer := Idle)
  }

  /** The server as a client meets it: an object that changes under its requests. */
  class Remote {
    var st: State

    constructor (objects: seq<Object>, others: Others)
      requires forall o | o in objects :: |o.content| <= o.allocatedSize
      ensures st == State(objects, None, Idle, [], others) && Valid(st)
    {
      st := State(objects, None, Idle, [], others);
    }

    method Exchange(sent: Sent) returns (answer: seq<byte>)
      requires Valid(st)
      modifies this
      ensures Valid(st) && (st, answer) == Serve(old(st), sent)
    {
      var (st', raw) := Serve(st, sent);
      st := st';
      answer := raw;
    }

    method Receive(data: seq<byte>)
      requires Valid(st)
      modifies this
      ensures Valid(st) && st == Upload(old(st), data)
    {
      st := Upload(st, data);
    }
  }
}
