// The control point protocol (sections 3.3 and 3.4 of the Object Transfer Service 1.0):
// request encoders and response decoders of core/src/types.rs, with a reference server-side
// decoder of requests and encoder of responses.

module ControlPoint {
  import opened Wrappers
  import opened Bytes
  import opened Errors
  import opened Uuids

  // ---------- one-byte codes ----------

  datatype SortOrder =
    | NameAsc | TypeAsc | CurSizeAsc | CrtTimeAsc | ModTimeAsc
    | NameDesc | TypeDesc | CurSizeDesc | CrtTimeDesc | ModTimeDesc

  datatype ListOp =
    | OpFirst | OpLast | OpPrevious | OpNext | OpGoTo | OpOrder | OpNumberOf | OpClearMark
    | ListResponse

  datatype ActionOp =
    | OpCreate | OpDelete | OpCheckSum | OpExecute | OpRead | OpWrite | OpAbort
    | ActionResponse

  function SortOrderCode(order: SortOrder): byte {
    match order
    case NameAsc => 0x01 case TypeAsc => 0x02 case CurSizeAsc => 0x03 case CrtTimeAsc => 0x04 case ModTimeAsc => 0x05
    case NameDesc => 0x11 case TypeDesc => 0x12 case CurSizeDesc => 0x13 case CrtTimeDesc => 0x14
    case ModTimeDesc => 0x15
  }

  function SortOrderOf(raw: byte): (r: CoreResult<SortOrder>)
    ensures r.Ok? ==> SortOrderCode(r.value) == raw
    ensures r.Err? ==> r.error == BadOpCode(SortOrderType, raw) && forall order :: SortOrderCode(order) != raw
  {
    if 0x01 <= raw <= 0x05 then Ok([NameAsc, TypeAsc, CurSizeAsc, CrtTimeAsc, ModTimeAsc][raw - 1])
    else if 0x11 <= raw <= 0x15 then Ok([NameDesc, TypeDesc, CurSizeDesc, CrtTimeDesc, ModTimeDesc][raw - 0x11])
    else Err(BadOpCode(SortOrderType, raw))
  }

  function ListOpCode(op: ListOp): byte {
    match op
    case OpFirst => 0x01 case OpLast => 0x02 case OpPrevious => 0x03 case OpNext => 0x04
    case OpGoTo => 0x05 case OpOrder => 0x06 case OpNumberOf => 0x07 case OpClearMark => 0x08
    case ListResponse => 0x70
  }

  function ListOpOf(raw: byte): (r: CoreResult<ListOp>)
    ensures r.Ok? ==> ListOpCode(r.value) == raw
    ensures r.Err? ==> r.error == BadOpCode(ListOpType, raw) && forall op :: ListOpCode(op) != raw
  {
    if 0x01 <= raw <= 0x08 then
      Ok([OpFirst, OpLast, OpPrevious, OpNext, OpGoTo, OpOrder, OpNumberOf, OpClearMark][raw - 1])
    else if raw == 0x70 then Ok(ListResponse)
    else Err(BadOpCode(ListOpType, raw))
  }

  function ActionOpCode(op: ActionOp): byte {
    match op
    case OpCreate => 0x01 case OpDelete => 0x02 case OpCheckSum => 0x03 case OpExecute => 0x04
    case OpRead => 0x05 case OpWrite => 0x06 case OpAbort => 0x07
    case ActionResponse => 0x60
  }

  function ActionOpOf(raw: byte): (r: CoreResult<ActionOp>)
    ensures r.Ok? ==> ActionOpCode(r.value) == raw
    ensures r.Err? ==> r.error == BadOpCode(ActionOpType, raw) && forall op :: ActionOpCode(op) != raw
  {
    if 0x01 <= raw <= 0x07 then
      Ok([OpCreate, OpDelete, OpCheckSum, OpExecute, OpRead, OpWrite, OpAbort][raw - 1])
    else if raw == 0x60 then Ok(ActionResponse)
    else Err(BadOpCode(ActionOpType, raw))
  }

  function ListRcCode(rc: ListRc): byte {
    match rc
    case ListSuccess => 0x01 case ListOperationNotSupported => 0x02 case ListInvalidParameter => 0x03
    case ListOperationFailed => 0x04 case OutOfBounds => 0x05 case TooManyObjects => 0x06
    case NoObject => 0x07 case ObjectIdNotFound => 0x08
  }

  function ListRcOf(raw: byte): (r: CoreResult<ListRc>)
    ensures r.Ok? ==> ListRcCode(r.value) == raw
    ensures r.Err? ==> r.error == BadOpCode(ListRcType, raw) && forall rc :: ListRcCode(rc) != raw
  {
    if 0x01 <= raw <= 0x08 then
      Ok([ListSuccess, ListOperationNotSupported, ListInvalidParameter, ListOperationFailed,
          OutOfBounds, TooManyObjects, NoObject, ObjectIdNotFound][raw - 1])
    else Err(BadOpCode(ListRcType, raw))
  }

  function ActionRcCode(rc: ActionRc): byte {
    match rc
    case ActionSuccess => 0x01 case ActionOperationNotSupported => 0x02 case ActionInvalidParameter => 0x03
    case InsufficientResources => 0x04 case InvalidObject => 0x05 case ChannelUnavailable => 0x06
    case UnsupportedType => 0x07 case ProcedureNotPermitted => 0x08 case ObjectLocked => 0x09
    case ActionOperationFailed => 0x0a
  }

  function ActionRcOf(raw: byte): (r: CoreResult<ActionRc>)
    ensures r.Ok? ==> ActionRcCode(r.value) == raw
    ensures r.Err? ==> r.error == BadOpCode(ActionRcType, raw) && forall rc :: ActionRcCode(rc) != raw
  {
    if 0x01 <= raw <= 0x0a then
      Ok([ActionSuccess, ActionOperationNotSupported, ActionInvalidParameter, InsufficientResources, InvalidObject,
          ChannelUnavailable, UnsupportedType, ProcedureNotPermitted, ObjectLocked, ActionOperationFailed][raw - 1])
    else Err(BadOpCode(ActionRcType, raw))
  }

  // ---------- list requests ----------

  datatype ListReq =
    | First
    | Last
    | Previous
    | Next
    | GoTo(id: u64)
    | Order(order: SortOrder)
    | NumberOf
    | ClearMark

  function ListReqOp(req: ListReq): ListOp {
    match req
    case First => OpFirst case Last => OpLast case Previous => OpPrevious case Next => OpNext
    case GoTo(_) => OpGoTo case Order(_) => OpOrder case NumberOf => OpNumberOf case ClearMark => OpClearMark
  }

  /** The request on the wire: opcode, then the parameter if the request has one. */
  function ListReqBytes(req: ListReq): seq<byte> {
    [ListOpCode(ListReqOp(req))] +
    match req
    case GoTo(id) => LeBytes(id, 6)
    case Order(order) => [SortOrderCode(order)]
    case _ => []
  }

  /** What of a request survives its encoding: an identifier is cut to 48 bits. */
  function ReducedList(req: ListReq): ListReq {
    if req.GoTo? then GoTo(req.id % 0x1_0000_0000_0000) else req
  }

  /** Reference decoder, as a server reads the control point. */
  function DecodeListReq(raw: seq<byte>): Option<ListReq> {
    if raw == [] || ListOpOf(raw[0]).Err? then None else
    match ListOpOf(raw[0]).value
    case OpGoTo => if |raw| == 7 then Some(GoTo(LeU48(raw[1..]))) else None
    case OpOrder =>
      if |raw| == 2 && SortOrderOf(raw[1]).Ok? then Some(Order(SortOrderOf(raw[1]).value)) else None
    case OpFirst => if |raw| == 1 then Some(First) else None
    case OpLast => if |raw| == 1 then Some(Last) else None
    case OpPrevious => if |raw| == 1 then Some(Previous) else None
    case OpNext => if |raw| == 1 then Some(Next) else None
    case OpNumberOf => if |raw| == 1 then Some(NumberOf) else None
    case OpClearMark => if |raw| == 1 then Some(ClearMark) else None
    case ListResponse => None
  }

  method EncodeListReq(req: ListReq) returns (out: seq<byte>)
    ensures out == ListReqBytes(req)
    ensures DecodeListReq(out) == Some(ReducedList(req))
  {
    hide LeBytes, DecodeListReq, ReducedList;
    out := [];
    match req {
      case First => out := out + [ListOpCode(OpFirst)];
      case Last => out := out + [ListOpCode(OpLast)];
      case Previous => out := out + [ListOpCode(OpPrevious)];
      case Next => out := out + [ListOpCode(OpNext)];
      case GoTo(id) =>
        out := out + [ListOpCode(OpGoTo)];
        out := out + LeBytes(id, 8)[..6];
        LePrefix(id, 6, 8);
      case Order(order) =>
        out := out + [ListOpCode(OpOrder)];
        out := out + [SortOrderCode(order)];
      case NumberOf => out := out + [ListOpCode(OpNumberOf)];
      case ClearMark => out := out + [ListOpCode(OpClearMark)];
    }
    ListReqInverse(req);
  }

  lemma SortOrderInverse(order: SortOrder)
    ensures SortOrderOf(SortOrderCode(order)) == Ok(order)
  {
  }

  lemma ListOpInverse(op: ListOp)
    ensures ListOpOf(ListOpCode(op)) == Ok(op)
  {
  }

  /** The server reads back every list request, up to reduction of the identifier. */
  lemma ListReqInverse(req: ListReq)
    ensures DecodeListReq(ListReqBytes(req)) == Some(ReducedList(req))
  {
    ListOpInverse(ListReqOp(req));
    match req
    case GoTo(id) =>
      assert ListReqBytes(req)[1..] == LeBytes(id, 6);
      Widths();
      LeValueOfBytes(id, 6);
    case Order(order) => SortOrderInverse(order);
    case _ =>
  }

  /** ... and accepts nothing but encoded requests. */
  lemma ListReqOnly(raw: seq<byte>)
    requires DecodeListReq(raw).Some?
    ensures ListReqBytes(DecodeListReq(raw).value) == raw
  {
    if raw[0] == 0x05 {
      assert raw[1..] == LeBytes(LeValue(raw[1..]), 6) by { LeBytesOfValue(raw[1..]); }
    }
  }

  /** Two list requests share their bytes exactly when they reduce to the same request. */
  lemma SameListBytes(a: ListReq, b: ListReq)
    ensures ListReqBytes(a) == ListReqBytes(b) <==> ReducedList(a) == ReducedList(b)
  {
    ListReqInverse(a);
    ListReqInverse(b);
    if ReducedList(a) == ReducedList(b) && a.GoTo? {
      Widths();
      LeInjective(a.id, b.id, 6);
    }
  }

  // ---------- action requests ----------

  /** Lengths, sizes and offsets are `usize`, taken to be 64 bits wide. */
  datatype ActionReq =
    | Create(size: u64, type_: Uuid)
    | Delete
    | CheckSum(offset: u64, length: u64)
    | Execute(param: seq<byte>)
    | Read(offset: u64, length: u64)
    | Write(offset: u64, length: u64, mode: byte)
    | Abort

  const WRITE_TRUNCATE: byte := 0x02

  function ActionReqOp(req: ActionReq): ActionOp {
    match req
    case Create(_, _) => OpCreate case Delete => OpDelete case CheckSum(_, _) => OpCheckSum
    case Execute(_) => OpExecute case Read(_, _) => OpRead case Write(_, _, _) => OpWrite case Abort => OpAbort
  }

  function ActionReqBytes(req: ActionReq): seq<byte> {
    [ActionOpCode(ActionReqOp(req))] +
    match req
    case Create(size, type_) => LeBytes(size, 4) + UuidBytes(type_)
    case CheckSum(offset, length) => LeBytes(offset, 4) + LeBytes(length, 4)
    case Execute(param) => param
    case Read(offset, length) => LeBytes(offset, 4) + LeBytes(length, 4)
    case Write(offset, length, mode) => LeBytes(offset, 4) + LeBytes(length, 4) + [mode]
    case _ => []
  }

  function Low32(v: u64): u32 {
    v % 0x1_0000_0000
  }

  /** What of a request survives its encoding: numbers are cut to 32 bits. */
  function ReducedAction(req: ActionReq): ActionReq {
    match req
    case Create(size, type_) => Create(Low32(size), type_)
    case CheckSum(offset, length) => CheckSum(Low32(offset), Low32(length))
    case Read(offset, length) => Read(Low32(offset), Low32(length))
    case Write(offset, length, mode) => Write(Low32(offset), Low32(length), mode)
    case _ => req
  }

  /** Reference decoder, as a server reads the control point. */
  function DecodeActionReq(raw: seq<byte>): Option<ActionReq> {
    if raw == [] || ActionOpOf(raw[0]).Err? then None else
    match ActionOpOf(raw[0]).value
    case OpCreate => if |raw| == 21 then Some(Create(LeU32(raw[1..5]), UuidOfBytes(raw[5..]))) else None
    case OpCheckSum => if |raw| == 9 then Some(CheckSum(LeU32(raw[1..5]), LeU32(raw[5..]))) else None
    case OpExecute => Some(Execute(raw[1..]))
    case OpRead => if |raw| == 9 then Some(Read(LeU32(raw[1..5]), LeU32(raw[5..]))) else None
    case OpWrite => if |raw| == 10 then Some(Write(LeU32(raw[1..5]), LeU32(raw[5..9]), raw[9])) else None
    case OpDelete => if |raw| == 1 then Some(Delete) else None
    case OpAbort => if |raw| == 1 then Some(Abort) else None
    case ActionResponse => None
  }

  method EncodeActionReq(req: ActionReq) returns (out: seq<byte>)
    ensures out == ActionReqBytes(req)
    ensures DecodeActionReq(out) == Some(ReducedAction(req))
  {
    hide LeBytes, DecodeActionReq, ReducedAction;
    out := [];
    match req {
      case Create(size, type_) =>
        out := out + [ActionOpCode(OpCreate)];
        out := out + LeBytes(size, 8)[..4];
        out := out + UuidBytes(type_);
        LePrefix(size, 4, 8);
      case Delete => out := out + [ActionOpCode(OpDelete)];
      case CheckSum(offset, length) =>
        out := out + [ActionOpCode(OpCheckSum)];
        out := out + LeBytes(offset, 8)[..4];
        out := out + LeBytes(length, 8)[..4];
        LePrefix(offset, 4, 8);
        LePrefix(length, 4, 8);
      case Execute(param) =>
        out := out + [ActionOpCode(OpExecute)];
        out := out + param;
      case Read(offset, length) =>
        out := out + [ActionOpCode(OpRead)];
        out := out + LeBytes(offset, 8)[..4];
        out := out + LeBytes(length, 8)[..4];
        LePrefix(offset, 4, 8);
        LePrefix(length, 4, 8);
      case Write(offset, length, mode) =>
        out := out + [ActionOpCode(OpWrite)];
        out := out + LeBytes(offset, 8)[..4];
        out := out + LeBytes(length, 8)[..4];
        out := out + [mode];
        LePrefix(offset, 4, 8);
        LePrefix(length, 4, 8);
      case Abort => out := out + [ActionOpCode(OpAbort)];
    }
    ActionReqInverse(req);
  }

  lemma ActionOpInverse(op: ActionOp)
    ensures ActionOpOf(ActionOpCode(op)) == Ok(op)
  {
  }

  lemma Low32Field(v: u64)
    ensures LeU32(LeBytes(v, 4)) == Low32(v)
  {
    Widths();
    LeValueOfBytes(v, 4);
  }

  /** The server reads back every action request, up to reduction of its numbers. */
  lemma ActionReqInverse(req: ActionReq)
    ensures DecodeActionReq(ActionReqBytes(req)) == Some(ReducedAction(req))
  {
    hide LeBytes, LeU32, Low32, UuidBytes, UuidOfBytes;
    ActionOpInverse(ActionReqOp(req));
    var raw := ActionReqBytes(req);
    match req
    case Create(size, type_) =>
      assert raw[1..5] == LeBytes(size, 4) && raw[5..] == UuidBytes(type_);
      Low32Field(size);
      UuidBytesInverse(type_);
    case CheckSum(offset, length) =>
      assert raw[1..5] == LeBytes(offset, 4) && raw[5..] == LeBytes(length, 4);
      Low32Field(offset);
      Low32Field(length);
    case Read(offset, length) =>
      assert raw[1..5] == LeBytes(offset, 4) && raw[5..] == LeBytes(length, 4);
      Low32Field(offset);
      Low32Field(length);
    case Write(offset, length, mode) =>
      assert raw[1..5] == LeBytes(offset, 4) && raw[5..9] == LeBytes(length, 4) && raw[9] == mode;
      Low32Field(offset);
      Low32Field(length);
    case Execute(param) => assert raw[1..] == param;
    case Delete =>
    case Abort =>
  }

  lemma U32Bytes(bs: seq<byte>)
    requires |bs| == 4
    ensures LeBytes(LeU32(bs), 4) == bs
  {
    LeBytesOfValue(bs);
  }

  /** ... and accepts nothing but encoded requests. */
  lemma ActionReqOnly(raw: seq<byte>)
    requires DecodeActionReq(raw).Some?
    ensures ActionReqBytes(DecodeActionReq(raw).value) == raw
  {
    hide LeBytes, LeU32, UuidBytes, UuidOfBytes;
    match DecodeActionReq(raw).value
    case Create(_, _) =>
      U32Bytes(raw[1..5]);
      UuidOfBytesInverse(raw[5..]);
    case CheckSum(_, _) =>
      U32Bytes(raw[1..5]);
      U32Bytes(raw[5..]);
    case Read(_, _) =>
      U32Bytes(raw[1..5]);
      U32Bytes(raw[5..]);
    case Write(_, _, _) =>
      U32Bytes(raw[1..5]);
      U32Bytes(raw[5..9]);
    case Execute(_) =>
    case Delete =>
    case Abort =>
  }

  /** Two action requests share their bytes exactly when they reduce to the same request. */
  lemma SameActionBytes(a: ActionReq, b: ActionReq)
    ensures ActionReqBytes(a) == ActionReqBytes(b) <==> ReducedAction(a) == ReducedAction(b)
  {
    hide DecodeActionReq, ActionReqBytes, ReducedAction;
    ActionReqInverse(a);
    ActionReqInverse(b);
    ReductionKeepsBytes(a);
    ReductionKeepsBytes(b);
  }

  lemma ReductionKeepsBytes(req: ActionReq)
    ensures ActionReqBytes(ReducedAction(req)) == ActionReqBytes(req)
  {
    hide LeBytes, Low32, UuidBytes;
    match req
    case Create(size, _) => Low32Bytes(size);
    case CheckSum(offset, length) => Low32Bytes(offset); Low32Bytes(length);
    case Read(offset, length) => Low32Bytes(offset); Low32Bytes(length);
    case Write(offset, length, _) => Low32Bytes(offset); Low32Bytes(length);
    case _ =>
  }

  lemma Low32Bytes(v: u64)
    ensures LeBytes(Low32(v), 4) == LeBytes(v, 4)
  {
    Widths();
    LeInjective(Low32(v), v, 4);
  }

  // ---------- responses ----------

  datatype ListRes = ListDone | ListCount(count: u32)

  function ParseListRes(raw: seq<byte>): CoreResult<ListRes> {
    var _ :- CheckLen(|raw|, 3);
    var response :- ListOpOf(raw[0]);
    if response != ListResponse then Err(BadResponse) else
    var rc :- ListRcOf(raw[2]);
    if rc != ListSuccess then Err(ListError(rc)) else
    var op :- ListOpOf(raw[1]);
    if op == OpNumberOf then
      var _ :- CheckLenExact(|raw| - 3, 4);
      Ok(ListCount(LeU32(raw[3..])))
    else Ok(ListDone)
  }

  /** Reference encoder of a server's answer to the list operation `op`. */
  function ListResBytes(op: ListOp, rc: ListRc, payload: seq<byte>): seq<byte> {
    [ListOpCode(ListResponse), ListOpCode(op), ListRcCode(rc)] + payload
  }

  /** Which byte strings are read as what: the count is the one sent, a refusal keeps its
      code, and everything else is an error. */
  lemma ListResExact(raw: seq<byte>, count: u32, rc: ListRc)
    ensures ParseListRes(raw) == Ok(ListCount(count)) <==>
            raw == ListResBytes(OpNumberOf, ListSuccess, LeBytes(count, 4))
    ensures ParseListRes(raw) == Ok(ListDone) <==>
            |raw| >= 3 && exists op :: op != OpNumberOf && raw == ListResBytes(op, ListSuccess, raw[3..])
    ensures ParseListRes(raw) == Err(ListError(rc)) <==>
            |raw| >= 3 && rc != ListSuccess && raw[0] == 0x70 && raw[2] == ListRcCode(rc)
  {
    hide LeBytes, LeU32;
    if |raw| >= 3 {
      assert raw == [raw[0], raw[1], raw[2]] + raw[3..];
      if ParseListRes(raw) == Ok(ListDone) {
        assert raw == ListResBytes(ListOpOf(raw[1]).value, ListSuccess, raw[3..]);
      }
      forall op
        ensures ListOpOf(ListOpCode(op)) == Ok(op)
      {
        ListOpInverse(op);
      }
      if |raw| == 7 {
        U32Bytes(raw[3..]);
      }
    }
    Low32Field(count);
  }

  datatype ActionRes = ActionDone | ActionSum(value: u32) | ActionParam(param: seq<byte>)

  function ParseActionRes(raw: seq<byte>): CoreResult<ActionRes> {
    var _ :- CheckLen(|raw|, 3);
    var response :- ActionOpOf(raw[0]);
    if response != ActionResponse then Err(BadResponse) else
    var rc :- ActionRcOf(raw[2]);
    if rc != ActionSuccess then Err(ActionError(rc)) else
    var op :- ActionOpOf(raw[1]);
    match op
    case OpCheckSum =>
      var _ :- CheckLenExact(|raw| - 3, 4);
      Ok(ActionSum(LeU32(raw[3..])))
    case OpExecute => Ok(ActionParam(raw[3..]))
    case _ => Ok(ActionDone)
  }

  function ActionResBytes(op: ActionOp, rc: ActionRc, payload: seq<byte>): seq<byte> {
    [ActionOpCode(ActionResponse), ActionOpCode(op), ActionRcCode(rc)] + payload
  }

  lemma ActionResExact(raw: seq<byte>, value: u32, param: seq<byte>, rc: ActionRc)
    ensures ParseActionRes(raw) == Ok(ActionSum(value)) <==>
            raw == ActionResBytes(OpCheckSum, ActionSuccess, LeBytes(value, 4))
    ensures ParseActionRes(raw) == Ok(ActionParam(param)) <==> raw == ActionResBytes(OpExecute, ActionSuccess, param)
    ensures ParseActionRes(raw) == Err(ActionError(rc)) <==>
            |raw| >= 3 && rc != ActionSuccess && raw[0] == 0x60 && raw[2] == ActionRcCode(rc)
  {
    hide LeBytes, LeU32;
    if |raw| >= 3 {
      assert raw == [raw[0], raw[1], raw[2]] + raw[3..];
      if |raw| == 7 {
        U32Bytes(raw[3..]);
      }
    }
    Low32Field(value);
  }

  lemma ActionDoneExact(raw: seq<byte>)
    ensures ParseActionRes(raw) == Ok(ActionDone) <==>
            |raw| >= 3 &&
            exists op :: op != OpCheckSum && op != OpExecute && raw == ActionResBytes(op, ActionSuccess, raw[3..])
  {
    hide LeU32;
    if |raw| >= 3 {
      assert raw == [raw[0], raw[1], raw[2]] + raw[3..];
      if ParseActionRes(raw) == Ok(ActionDone) {
        assert raw == ActionResBytes(ActionOpOf(raw[1]).value, ActionSuccess, raw[3..]);
      }
      forall op
        ensures ActionOpOf(ActionOpCode(op)) == Ok(op)
      {
        ActionOpInverse(op);
      }
    }
  }

  /** A client reads the answer to its list request as the server meant it. */
  lemma ListResInverse(op: ListOp, rc: ListRc, payload: seq<byte>)
    ensures var r := ParseListRes(ListResBytes(op, rc, payload));
            if rc != ListSuccess then r == Err(ListError(rc))
            else if op != OpNumberOf then r == Ok(ListDone)
            else if |payload| == 4 then r == Ok(ListCount(LeU32(payload)))
            else r.Err?
  {
    hide LeU32;
    ListOpInverse(op);
    var raw := ListResBytes(op, rc, payload);
    assert raw[3..] == payload;
  }

  /** A client reads the answer to its action request as the server meant it. */
  lemma ActionResInverse(op: ActionOp, rc: ActionRc, payload: seq<byte>)
    ensures var r := ParseActionRes(ActionResBytes(op, rc, payload));
            if rc != ActionSuccess then r == Err(ActionError(rc))
            else if op == OpCheckSum then
              if |payload| == 4 then r == Ok(ActionSum(LeU32(payload))) else r.Err?
            else if op == OpExecute then r == Ok(ActionParam(payload))
            else r == Ok(ActionDone)
  {
    hide LeU32;
    ActionOpInverse(op);
    var raw := ActionResBytes(op, rc, payload);
    assert raw[3..] == payload;
  }

  // ---------- the bytes themselves ----------

  /** The codes of section 3.3 and 3.4, number by number. */
  lemma CodesOnTheWire()
    ensures forall i | 0 <= i < 8 ::
              ListOpCode([OpFirst, OpLast, OpPrevious, OpNext, OpGoTo, OpOrder, OpNumberOf, OpClearMark][i]) == i + 1
    ensures ListOpCode(ListResponse) == 0x70 && ActionOpCode(ActionResponse) == 0x60
    ensures forall i | 0 <= i < 7 ::
              ActionOpCode([OpCreate, OpDelete, OpCheckSum, OpExecute, OpRead, OpWrite, OpAbort][i]) == i + 1
    ensures forall i | 0 <= i < 8 ::
              ListRcCode([ListSuccess, ListOperationNotSupported, ListInvalidParameter, ListOperationFailed,
                          OutOfBounds, TooManyObjects, NoObject, ObjectIdNotFound][i]) == i + 1
    ensures forall i | 0 <= i < 10 ::
              ActionRcCode([ActionSuccess, ActionOperationNotSupported, ActionInvalidParameter,
                            InsufficientResources, InvalidObject, ChannelUnavailable, UnsupportedType,
                            ProcedureNotPermitted, ObjectLocked, ActionOperationFailed][i]) == i + 1
    ensures forall i | 0 <= i < 5 ::
              && SortOrderCode([NameAsc, TypeAsc, CurSizeAsc, CrtTimeAsc, ModTimeAsc][i]) == i + 1
              && SortOrderCode([NameDesc, TypeDesc, CurSizeDesc, CrtTimeDesc, ModTimeDesc][i]) == i + 0x11
  {
  }

  /** The bytes of a number, least significant first, by division. */
  function Quad(v: nat): seq<byte> {
    [v % 0x100, v / 0x100 % 0x100, v / 0x1_0000 % 0x100, v / 0x100_0000 % 0x100]
  }

  lemma QuadIsLe(v: nat)
    ensures LeBytes(v, 4) == Quad(v)
  {
    var a, b, c := v / 256, v / 256 / 256, v / 256 / 256 / 256;
    assert LeBytes(c, 1) == [c % 256] + LeBytes(c / 256, 0);
    assert LeBytes(b, 2) == [b % 256] + LeBytes(c, 1);
    assert LeBytes(a, 3) == [a % 256] + LeBytes(b, 2);
    assert LeBytes(v, 4) == [v % 256] + LeBytes(a, 3);
    assert b == v / 0x1_0000 && c == v / 0x100_0000;
  }

  /** Every request byte by byte: opcode first, offset before length before mode, size before type. */
  lemma RequestLayout(action: ActionReq, list: ListReq)
    ensures ActionReqBytes(action) ==
            match action
            case Create(size, type_) => [0x01] + Quad(size) + UuidBytes(type_)
            case Delete => [0x02]
            case CheckSum(offset, length) => [0x03] + Quad(offset) + Quad(length)
            case Execute(param) => [0x04] + param
            case Read(offset, length) => [0x05] + Quad(offset) + Quad(length)
            case Write(offset, length, mode) => [0x06] + Quad(offset) + Quad(length) + [mode]
            case Abort => [0x07]
    ensures ListReqBytes(list) ==
            match list
            case First => [0x01]
            case Last => [0x02]
            case Previous => [0x03]
            case Next => [0x04]
            case GoTo(id) => [0x05] + Quad(id) + [id / 0x1_0000_0000 % 0x100, id / 0x100_0000_0000 % 0x100]
            case Order(order) => [0x06, SortOrderCode(order)]
            case NumberOf => [0x07]
            case ClearMark => [0x08]
  {
    if action.Create? {
      QuadIsLe(action.size);
    } else if action.CheckSum? || action.Read? || action.Write? {
      QuadIsLe(action.offset);
      QuadIsLe(action.length);
    }
    if list.GoTo? {
      SixBytes(list.id);
    }
  }

  lemma SixBytes(v: nat)
    ensures LeBytes(v, 6) == Quad(v) + [v / 0x1_0000_0000 % 0x100, v / 0x100_0000_0000 % 0x100]
  {
    LePrefix(v, 4, 6);
    QuadIsLe(v);
    LeDrop(v, 4, 6);
    Widths();
    var h := v / 0x1_0000_0000;
    assert LeBytes(h, 2) == [h % 256] + LeBytes(h / 256, 1);
    assert LeBytes(h / 256, 1) == [h / 256 % 256] + LeBytes(h / 256 / 256, 0);
    assert h / 256 == v / 0x100_0000_0000;
    assert LeBytes(v, 6) == LeBytes(v, 6)[..4] + LeBytes(v, 6)[4..];
  }

  /** The faults of a list response, in the order they are looked for. */
  lemma ListResFaults(raw: seq<byte>)
    ensures var r := ParseListRes(raw);
            if |raw| < 3 then r == Err(NotEnoughData(|raw|, 3))
            else if 0x01 <= raw[0] <= 0x08 then r == Err(BadResponse)
            else if raw[0] != 0x70 then r == Err(BadOpCode(ListOpType, raw[0]))
            else if !(0x01 <= raw[2] <= 0x08) then r == Err(BadOpCode(ListRcType, raw[2]))
            else if raw[2] != 0x01 then r.Err? && r.error.ListError?
            else if !(0x01 <= raw[1] <= 0x08 || raw[1] == 0x70) then r == Err(BadOpCode(ListOpType, raw[1]))
            else if raw[1] == 0x07 && |raw| < 7 then r == Err(NotEnoughData(|raw| - 3, 4))
            else if raw[1] == 0x07 && |raw| > 7 then r == Err(TooManyData(|raw| - 3, 4))
            else r.Ok?
  {
    hide LeU32;
  }

  /** The faults of an action response, in the order they are looked for. */
  lemma ActionResFaults(raw: seq<byte>)
    ensures var r := ParseActionRes(raw);
            if |raw| < 3 then r == Err(NotEnoughData(|raw|, 3))
            else if 0x01 <= raw[0] <= 0x07 then r == Err(BadResponse)
            else if raw[0] != 0x60 then r == Err(BadOpCode(ActionOpType, raw[0]))
            else if !(0x01 <= raw[2] <= 0x0a) then r == Err(BadOpCode(ActionRcType, raw[2]))
            else if raw[2] != 0x01 then r.Err? && r.error.ActionError?
            else if !(0x01 <= raw[1] <= 0x07 || raw[1] == 0x60) then r == Err(BadOpCode(ActionOpType, raw[1]))
            else if raw[1] == 0x03 && |raw| < 7 then r == Err(NotEnoughData(|raw| - 3, 4))
            else if raw[1] == 0x03 && |raw| > 7 then r == Err(TooManyData(|raw| - 3, 4))
            else r.Ok?
  {
    hide LeU32;
  }
}
