// The core crate's error values and length checks (core/src/lib.rs).

module Errors {
  import opened Wrappers
  import opened Bytes

  /** Which one-byte code table a byte failed to match. */
  datatype OpType = SortOrderType | ListOpType | ListRcType | ActionOpType | ActionRcType

  datatype ListRc =
    | ListSuccess
    | ListOperationNotSupported
    | ListInvalidParameter
    | ListOperationFailed
    | OutOfBounds
    | TooManyObjects
    | NoObject
    | ObjectIdNotFound

  datatype ActionRc =
    | ActionSuccess
    | ActionOperationNotSupported
    | ActionInvalidParameter
    | InsufficientResources
    | InvalidObject
    | ChannelUnavailable
    | UnsupportedType
    | ProcedureNotPermitted
    | ObjectLocked
    | ActionOperationFailed

  datatype Error =
    | BadUtf8
    | BadResponse
    | BadUuidSize(size: nat)
    | ListError(listRc: ListRc)
    | ActionError(actionRc: ActionRc)
    | BadProperties(bits: u32)
    | BadDirFlags(flags: byte)
    | NotEnoughData(actual: nat, needed: nat)
    | TooManyData(actual: nat, needed: nat)
    | BadOpCode(opType: OpType, code: byte)

  type CoreResult<+T> = Result<T, Error>

  function CheckLen(actual: nat, needed: nat): (r: CoreResult<()>)
    ensures r.Ok? <==> needed <= actual
    ensures r.Err? ==> r.error == NotEnoughData(actual, needed)
  {
    if actual < needed then Err(NotEnoughData(actual, needed)) else Ok(())
  }

  function CheckLenExact(actual: nat, needed: nat): (r: CoreResult<()>)
    ensures r.Ok? <==> actual == needed
    ensures r.Err? ==> r.error ==
                       if actual < needed then NotEnoughData(actual, needed) else TooManyData(actual, needed)
  {
    var _ :- CheckLen(actual, needed);
    if actual > needed then Err(TooManyData(actual, needed)) else Ok(())
  }

  /** The input ended before the parser had what it needed. */
  predicate Starved<T>(r: CoreResult<T>) {
    r.Err? && r.error.NotEnoughData?
  }
}
