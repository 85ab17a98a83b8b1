// The command line tool's loops over a client (cli/src/main.rs): selecting an object, listing
// the objects by walking them or from the directory object, and writing.

module Cli {
  import opened Wrappers
  import opened Bytes
  import opened Errors
  import opened Utf8
  import opened Uuids
  import opened ObjectMetadata
  import opened Directory
  import opened Server
  import opened Client
  import Hex
  import ControlPoint

  datatype CliError = Ots(error: ClientError) | NoObjectFound | ObjIdError | HexError

  type CliResult<+T> = Result<T, CliError>

  function Wrap<T>(r: ClientResult<T>): CliResult<T> {
    r.MapErr(e => Ots(e))
  }

  // ---------- selecting an object ----------

  datatype ObjSel = ObjSel(index: Option<u64>, id: Option<u64>, name: Option<seq<byte>>)

  /** Where the search for a name stops: at that name, or at a name that is not text. */
  predicate StopsAt(o: Object, name: seq<byte>) {
    !ValidUtf8(o.name) || o.name == name
  }

  /** The first object a search by name stops at, or `|objects|`. */
  function FirstStop(objects: seq<Object>, name: seq<byte>): (k: nat)
    ensures k <= |objects|
    ensures forall j | 0 <= j < k :: !StopsAt(objects[j], name)
    ensures k < |objects| ==> StopsAt(objects[k], name)
  {
    if objects == [] || StopsAt(objects[0], name) then 0 else 1 + FirstStop(objects[1..], name)
  }

  /** What a selection comes to: the object left selected, the outcome, the requests made. */
  datatype Selection = Selection(cursor: Option<nat>, outcome: CliResult<()>, requests: nat)

  function Selected(cfg: Config, st: State, sel: ObjSel): (s: Selection)
    requires Valid(st)
    ensures s.cursor.Some? ==> s.cursor.value < |st.objects|
  {
    var n := |st.objects|;
    if sel.index.None? && sel.id.Some? then
      if !MoveAllowed(cfg, Jump(sel.id.value)) then Selection(st.cursor, Err(Ots(NotSupported)), 0)
      else
        var k := IndexOf(st.objects, sel.id.value % 0x1_0000_0000_0000);
        if k.Some? then Selection(k, Ok(()), 1) else Selection(st.cursor, Err(ObjIdError), 1)
    else if sel.index.None? && sel.name.None? then Selection(st.cursor, Err(ObjIdError), 0)
    else if !cfg.hasListPoint then Selection(st.cursor, Err(Ots(NotSupported)), 0)
    else if n == 0 then Selection(st.cursor, Err(Ots(Core(ListError(NoObject)))), 1)
    else
      var k := if sel.index.Some? then sel.index.value as nat else FirstStop(st.objects, sel.name.value);
      if k >= n then Selection(Some(n - 1), Err(NoObjectFound), n + 1)
      else if sel.index.None? && !ValidUtf8(st.objects[k].name) then Selection(Some(k), Err(Ots(Core(BadUtf8))), k + 1)
      else Selection(Some(k), Ok(()), k + 1)
  }

  method Select(ots: OtsClient, sel: ObjSel) returns (r: CliResult<()>)
    requires Valid(ots.remote.st)
    modifies ots.remote
    ensures Valid(ots.remote.st)
    ensures IsSelected(old(ots.remote.st), ots.remote.st, r, Selected(ots.cfg, old(ots.remote.st), sel))
  {
    hide Valid, Contains, FirstStop;
    if sel.index.Some? {
      r := SelectIndex(ots, sel.index.value);
    } else if sel.id.Some? {
      var jump := ots.GoTo(sel.id.value);
      var found :- Wrap(jump);
      r := if found then Ok(()) else Err(ObjIdError);
    } else if sel.name.Some? {
      r := SelectName(ots, sel.name.value);
    } else {
      r := Err(ObjIdError);
    }
  }

  /** The state after a selection: only the current object and the log have changed. */
  predicate IsSelected(before: State, after: State, r: CliResult<()>, s: Selection) {
    && r == s.outcome
    && after.cursor == s.cursor
    && |after.log| == |before.log| + s.requests
    && after.objects == before.objects
    && after.transfer == before.transfer
  }

  method SelectIndex(ots: OtsClient, index: u64) returns (r: CliResult<()>)
    requires Valid(ots.remote.st)
    modifies ots.remote
    ensures Valid(ots.remote.st)
    ensures var before, n := old(ots.remote.st), |old(ots.remote.st.objects)|;
            IsSelected(before, ots.remote.st, r,
                       if !ots.cfg.hasListPoint then Selection(before.cursor, Err(Ots(NotSupported)), 0)
                       else if n == 0 then Selection(before.cursor, Err(Ots(Core(ListError(NoObject)))), 1)
                       else if index < n then Selection(Some(index as nat), Ok(()), index as nat + 1)
                       else Selection(Some(n - 1), Err(NoObjectFound), n + 1))
  {
    hide Valid, Contains, FirstStop;
    ghost var before := ots.remote.st;
    var first := ots.First();
    var _ :- Wrap(first);
    for k := 0 to index
      invariant Valid(ots.remote.st)
      invariant AtObject(ots.cfg, before, ots.remote.st, k)
    {
      var next := ots.Next();
      match next {
        case Err(e) => return Err(Ots(e));
        case Ok(more) =>
          if !more {
            return Err(NoObjectFound);
          }
      }
    }
    r := Ok(());
  }

  /** A walk that started with `first` has reached object `k`. */
  predicate AtObject(cfg: Config, before: State, now: State, k: int) {
    && cfg.hasListPoint
    && now.objects == before.objects && now.transfer == before.transfer
    && 0 <= k < |now.objects| && now.cursor == Some(k as nat)
    && |now.log| == |before.log| + 1 + k
  }

  method SelectName(ots: OtsClient, name: seq<byte>) returns (r: CliResult<()>)
    requires Valid(ots.remote.st)
    modifies ots.remote
    ensures Valid(ots.remote.st)
    ensures var before, n := old(ots.remote.st), |old(ots.remote.st.objects)|;
            var k := FirstStop(before.objects, name);
            IsSelected(before, ots.remote.st, r,
                       if !ots.cfg.hasListPoint then Selection(before.cursor, Err(Ots(NotSupported)), 0)
                       else if n == 0 then Selection(before.cursor, Err(Ots(Core(ListError(NoObject)))), 1)
                       else if k == n then Selection(Some(n - 1), Err(NoObjectFound), n + 1)
                       else if before.objects[k].name == name && ValidUtf8(name) then Selection(Some(k), Ok(()), k + 1)
                       else Selection(Some(k), Err(Ots(Core(BadUtf8))), k + 1))
  {
    hide Contains, FirstStop;
    ghost var before := ots.remote.st;
    var first := ots.First();
    var _ :- Wrap(first);
    ghost var k := 0;
    while true
      invariant Valid(ots.remote.st)
      invariant AtObject(ots.cfg, before, ots.remote.st, k)
      invariant forall j | 0 <= j < k :: !StopsAt(before.objects[j], name)
      decreases |before.objects| - k
    {
      var current :- Wrap(ReadName(ots.remote.st));
      if current == name {
        break;
      }
      var next := ots.Next();
      match next {
        case Err(e) => return Err(Ots(e));
        case Ok(more) =>
          if !more {
            return Err(NoObjectFound);
          }
      }
      k := k + 1;
    }
    r := Ok(());
  }

  // ---------- what a selection is, in other terms ----------

  /** Selecting by index is going to the first object and on as often as the index says; it
      succeeds exactly when every one of those moves does, which is when the index is in the list. */
  lemma IndexIsWalk(cfg: Config, st: State, sel: ObjSel)
    requires Valid(st) && sel.index.Some?
    ensures var s, n, i := Selected(cfg, st, sel), |st.objects|, sel.index.value as nat;
            var (cursor, results) := ListMoves(cfg, st.objects, st.cursor, [ToFirst] + Forwards(i));
            && s.cursor == cursor
            && (s.outcome.Ok? <==> AllTrue(results))
            && (s.outcome.Ok? <==> cfg.hasListPoint && i < n)
            && (s.outcome.Ok? ==> s.cursor == Some(i) && s.requests == i + 1)
            && (s.outcome.Err? ==>
                  s.outcome.error == if !cfg.hasListPoint then Ots(NotSupported)
                                     else if n == 0 then Ots(Core(ListError(NoObject)))
                                     else NoObjectFound)
            && (s.outcome.Err? ==> s.requests == if !cfg.hasListPoint then 0 else n + 1)
  {
    var i := sel.index.value as nat;
    var moves := [ToFirst] + Forwards(i);
    assert moves[0] == ToFirst && moves[1..] == Forwards(i);
    if !cfg.hasListPoint || st.objects == [] {
      var results := ListMoves(cfg, st.objects, st.cursor, moves).1;
      assert results[0].Err?;
      StuckForwards(cfg, st, i);
    } else {
      ForwardsFrom(cfg, st.objects, 0, i);
      var results := ListMoves(cfg, st.objects, st.cursor, moves).1;
      assert results[1..] == ListMoves(cfg, st.objects, Some(0), Forwards(i)).1;
    }
  }

  predicate AllTrue(results: seq<ClientResult<bool>>) {
    results == [] || (results[0] == Ok(true) && AllTrue(results[1..]))
  }

  function Forwards(m: nat): (moves: seq<Move>)
    ensures |moves| == m && forall move | move in moves :: move == Forward
  {
    if m == 0 then [] else [Forward] + Forwards(m - 1)
  }

  lemma {:induction false} ForwardsFrom(cfg: Config, objects: seq<Object>, k: nat, m: nat)
    requires cfg.hasListPoint && k < |objects|
    ensures var (cursor, results) := ListMoves(cfg, objects, Some(k), Forwards(m));
            && cursor == Some(Min(k + m, |objects| - 1) as nat)
            && (k + m < |objects| <==> AllTrue(results))
    decreases m
  {
    if m > 0 {
      var next := Min(k + 1, |objects| - 1);
      ForwardsFrom(cfg, objects, next, m - 1);
      var (cursor, results) := ListMoves(cfg, objects, Some(k), Forwards(m));
      var others := ListMoves(cfg, objects, Some(next), Forwards(m - 1)).1;
      assert results[1..] == others;
    }
  }

  /** Moves on neither end anywhere new when there is no list point or no object. */
  lemma {:induction false} StuckForwards(cfg: Config, st: State, m: nat)
    requires Valid(st) && (!cfg.hasListPoint || st.objects == [])
    ensures ListMoves(cfg, st.objects, st.cursor, Forwards(m)).0 == st.cursor
    decreases m
  {
    if m > 0 {
      StuckForwards(cfg, st, m - 1);
    }
  }

  /** Selecting by identifier is one jump; by name, the walk to the first match; without any
      criterion, an error. An index goes before an identifier, an identifier before a name. */
  lemma SelectionBranches(cfg: Config, st: State, sel: ObjSel)
    requires Valid(st) && sel.index.None?
    ensures var s, n := Selected(cfg, st, sel), |st.objects|;
            if sel.id.Some? then
              var (cursor, r) := ListMove(st.objects, st.cursor, ReducedMove(Jump(sel.id.value)));
              if MoveAllowed(cfg, Jump(sel.id.value))
              then s == Selection(cursor, if r == Ok(true) then Ok(()) else Err(ObjIdError), 1)
              else s == Selection(st.cursor, Err(Ots(NotSupported)), 0)
            else if sel.name.None? then s == Selection(st.cursor, Err(ObjIdError), 0)
            else
              && (s.outcome.Ok? <==>
                  && cfg.hasListPoint
                  && exists k | 0 <= k < n ::
                       && ValidUtf8(sel.name.value) && st.objects[k].name == sel.name.value
                       && forall j | 0 <= j < k ::
                            ValidUtf8(st.objects[j].name) && st.objects[j].name != sel.name.value)
              && (s.outcome.Ok? ==>
                  && s.cursor.Some? && st.objects[s.cursor.value].name == sel.name.value
                  && (forall j | 0 <= j < s.cursor.value :: st.objects[j].name != sel.name.value)
                  && s.requests == s.cursor.value + 1)
              && (s.outcome == Err(NoObjectFound) <==>
                  && cfg.hasListPoint && n > 0
                  && forall o | o in st.objects :: ValidUtf8(o.name) && o.name != sel.name.value)
              && (s.outcome == Err(NoObjectFound) ==> s.cursor == Some(n - 1) && s.requests == n + 1)
              && (!cfg.hasListPoint ==> s == Selection(st.cursor, Err(Ots(NotSupported)), 0))
              && (cfg.hasListPoint && n == 0 ==> s == Selection(st.cursor, Err(Ots(Core(ListError(NoObject)))), 1))
              && (cfg.hasListPoint && n > 0 && s.outcome.Err? && s.outcome != Err(NoObjectFound) ==>
                  && s.outcome == Err(Ots(Core(BadUtf8))) && s.cursor.Some?
                  && !ValidUtf8(st.objects[s.cursor.value].name)
                  && forall j | 0 <= j < s.cursor.value :: ValidUtf8(st.objects[j].name))
  {
    hide Contains, ValidUtf8;
  }

  // ---------- listing the objects ----------

  /** The columns both listings print. */
  datatype Row = Row(id: Option<u48>, name: seq<byte>, type_: Uuid)

  /** Rows are printed until the first error, which ends the listing. */
  function Report(items: seq<ClientResult<Row>>): (seq<Row>, CliResult<()>) {
    if items == [] then ([], Ok(()))
    else match items[0]
      case Err(e) => ([], Err(Ots(e)))
      case Ok(row) => var (rows, outcome) := Report(items[1..]); ([row] + rows, outcome)
  }

  lemma {:induction false} ReportIs(items: seq<ClientResult<Row>>, rows: seq<Row>)
    requires |rows| <= |items| && forall j | 0 <= j < |rows| :: items[j] == Ok(rows[j])
    ensures |rows| == |items| ==> Report(items) == (rows, Ok(()))
    ensures |rows| < |items| && items[|rows|].Err? ==> Report(items) == (rows, Err(Ots(items[|rows|].error)))
  {
    if rows != [] {
      ReportIs(items[1..], rows[1..]);
      assert rows == [rows[0]] + rows[1..];
    }
  }

  /** The row of an object read through its characteristics. */
  function RowOf(cfg: Config, o: Object): ClientResult<Row> {
    var name :- Lift(ParseName(o.name));
    var type_ :- Lift(UuidFromRaw(o.kind));
    Ok(Row(if cfg.hasId then Some(o.id) else None, name, type_))
  }

  function WalkItems(cfg: Config, objects: seq<Object>): seq<ClientResult<Row>> {
    seq(|objects|, i requires 0 <= i < |objects| => RowOf(cfg, objects[i]))
  }

  /** A row, or the first column that cannot be read: a name that is no text, a type of another
      width than 2, 4 or 16 bytes. */
  lemma RowExactly(cfg: Config, o: Object)
    ensures RowOf(cfg, o) ==
            if !ValidUtf8(o.name) then Err(Core(BadUtf8))
            else if |o.kind| !in {2, 4, 16} then Err(Core(BadUuidSize(|o.kind|)))
            else Ok(Row(if cfg.hasId then Some(o.id) else None, o.name, UuidFromRaw(o.kind).value))
  {
    hide ValidUtf8, ShortUuid;
  }

  predicate Printable(o: Object) {
    ValidUtf8(o.name) && |o.kind| in {2, 4, 16}
  }

  /** What walking the list prints. */
  function Walked(cfg: Config, objects: seq<Object>): (seq<Row>, CliResult<()>) {
    if !cfg.hasListPoint then ([], Err(Ots(NotSupported)))
    else if objects == [] then ([], Err(Ots(Core(ListError(NoObject)))))
    else Report(WalkItems(cfg, objects))
  }

  /** The walk prints the objects before the first that cannot be printed, and fails with that
      object's fault, or prints them all. */
  lemma WalkedExactly(cfg: Config, objects: seq<Object>, k: nat)
    requires k <= |objects| && (forall j | 0 <= j < k :: Printable(objects[j]))
    requires k < |objects| ==> !Printable(objects[k])
    ensures var (rows, r) := Walked(cfg, objects);
            if !cfg.hasListPoint then (rows, r) == ([], Err(Ots(NotSupported)))
            else if objects == [] then (rows, r) == ([], Err(Ots(Core(ListError(NoObject)))))
            else
              && |rows| == k
              && (forall j | 0 <= j < k ::
                    && rows[j].id == (if cfg.hasId then Some(objects[j].id) else None)
                    && rows[j].name == objects[j].name
                    && UuidFromRaw(objects[j].kind) == Ok(rows[j].type_))
              && r == if k == |objects| then Ok(())
                      else Err(Ots(Core(if !ValidUtf8(objects[k].name) then BadUtf8
                                        else BadUuidSize(|objects[k].kind|))))
  {
    hide ValidUtf8, RowOf, UuidFromRaw;
    forall j | 0 <= j < |objects|
      ensures WalkItems(cfg, objects)[j] == RowOf(cfg, objects[j])
      ensures RowOf(cfg, objects[j]).Ok? <==> Printable(objects[j])
    {
      RowExactly(cfg, objects[j]);
    }
    var rows := seq(k, j requires 0 <= j < k => RowOf(cfg, objects[j]).value);
    ReportIs(WalkItems(cfg, objects), rows);
    forall j | 0 <= j < |objects|
      ensures Printable(objects[j]) ==>
                RowOf(cfg, objects[j]) == Ok(Row(if cfg.hasId then Some(objects[j].id) else None, objects[j].name,
                                                 UuidFromRaw(objects[j].kind).value))
    {
      RowExactly(cfg, objects[j]);
    }
    if k < |objects| {
      RowExactly(cfg, objects[k]);
    }
  }

  /** `print_directory_iter`: from the first object on until `next` says there is no more. A
      walk that ends well leaves the last object selected, after one request per object and
      one for the end. */
  method PrintDirectoryIter(ots: OtsClient) returns (rows: seq<Row>, r: CliResult<()>)
    requires Valid(ots.remote.st)
    modifies ots.remote
    ensures Valid(ots.remote.st)
    ensures (rows, r) == Walked(ots.cfg, old(ots.remote.st.objects))
    ensures ots.remote.st.objects == old(ots.remote.st.objects)
    ensures r.Ok? ==> var n := |ots.remote.st.objects|;
                      && n > 0 && ots.remote.st.cursor == Some(n - 1 as nat)
                      && |ots.remote.st.log| == |old(ots.remote.st.log)| + 1 + n
  {
    hide Contains, RowOf;
    ghost var before := ots.remote.st;
    rows := [];
    var first := ots.First();
    if first.Err? {
      return [], Err(Ots(first.error));
    }
    ghost var items := WalkItems(ots.cfg, before.objects);
    while true
      invariant Valid(ots.remote.st)
      invariant AtObject(ots.cfg, before, ots.remote.st, |rows|)
      invariant forall j | 0 <= j < |rows| :: items[j] == Ok(rows[j])
      decreases |before.objects| - |rows|
    {
      ReportIs(items, rows);
      var row := ReadRow(ots);
      match row {
        case Err(e) => return rows, Err(Ots(e));
        case Ok(row) => rows := rows + [row];
      }
      var next := ots.Next();
      match next {
        case Err(e) => return rows, Err(Ots(e));
        case Ok(more) =>
          if !more {
            ReportIs(items, rows);
            return rows, Ok(());
          }
      }
    }
  }

  /** The reads of one row: identifier, name, type. */
  method ReadRow(ots: OtsClient) returns (r: ClientResult<Row>)
    requires Valid(ots.remote.st) && ots.remote.st.cursor.Some?
    ensures r == RowOf(ots.cfg, ots.remote.st.objects[ots.remote.st.cursor.value])
  {
    CharacteristicsAreExact(ots.cfg, ots.remote.st);
    var id := ReadId(ots.cfg, ots.remote.st);
    var name := ReadName(ots.remote.st);
    if name.Err? {
      return Err(name.error);
    }
    var type_ := ReadType(ots.remote.st);
    if type_.Err? {
      return Err(type_.error);
    }
    r := Ok(Row(id.value, name.value, type_.value));
  }

  /** The row of a directory entry. */
  function DirectoryRow(item: Item): ClientResult<Row> {
    match item
    case Ok(m) => Ok(Row(m.id, m.name, m.fields.type_))
    case Err(e) => Err(Core(e))
  }

  function DirectoryItems(items: seq<Item>): seq<ClientResult<Row>> {
    seq(|items|, i requires 0 <= i < |items| => DirectoryRow(items[i]))
  }

  /** What the bytes of a directory object print. */
  function Parsed(data: seq<byte>): (seq<Row>, CliResult<()>) {
    Report(DirectoryItems(List(data, AS_WRITTEN).items))
  }

  /** A directory prints the entries before the first error, and fails with that error as it
      was found, or prints them all. */
  lemma ParsedExactly(data: seq<byte>, k: nat)
    requires var items := List(data, AS_WRITTEN).items;
             && k <= |items| && (forall j | 0 <= j < k :: items[j].Ok?)
             && (k < |items| ==> items[k].Err?)
    ensures var items, (rows, r) := List(data, AS_WRITTEN).items, Parsed(data);
            && |rows| == k
            && (forall j | 0 <= j < k ::
                  var m := items[j].value; rows[j] == Row(m.id, m.name, m.fields.type_))
            && r == if k == |items| then Ok(()) else Err(Ots(Core(items[k].error)))
  {
    hide List;
    var items := List(data, AS_WRITTEN).items;
    ReportIs(DirectoryItems(items), seq(k, j requires 0 <= j < k => DirectoryRow(items[j]).value));
  }

  /** `print_directory_data`: every entry until the first error. */
  method PrintDirectoryData(data: seq<byte>) returns (rows: seq<Row>, r: CliResult<()>)
    requires !List(data, AS_WRITTEN).crashed
    ensures (rows, r) == Parsed(data)
  {
    hide SplitDirEntry, DirectoryRow, List, ParseMetadata;
    var entries := new DirEntries(data);
    ghost var items := List(data, AS_WRITTEN).items;
    rows := [];
    while true
      invariant fresh(entries) && entries.Valid() && !entries.Pending().crashed
      invariant |rows| <= |items| && items[|rows|..] == entries.Pending().items
      invariant forall j | 0 <= j < |rows| :: DirectoryItems(items)[j] == Ok(rows[j])
      decreases |items| - |rows|
    {
      ReportIs(DirectoryItems(items), rows);
      ListStep(entries.raw, AS_WRITTEN);
      var item := entries.Next();
      match item {
        case None => return rows, Ok(());
        case Some(entry) =>
          assert entry == items[|rows|];
          match DirectoryRow(entry) {
            case Err(e) => return rows, Err(Ots(e));
            case Ok(row) => rows := rows + [row];
          }
      }
    }
  }

  /** The object whose contents `list --dir` takes for the directory: the one selected after
      going to identifier 0, if it can be read. Going to an identifier that no object has is no
      error, so then it is whichever object was selected before. */
  function DirectorySource(cfg: Config, st: State): (o: Option<Object>)
    requires Valid(st)
    ensures o.Some? ==> o.value in st.objects
  {
    if !MoveAllowed(cfg, Jump(0)) then None else
    var k := IndexOf(st.objects, 0);
    var cursor := if k.Some? then k else st.cursor;
    if cursor.Some? && Contains(cfg.actionFeatures, 0x10)
       && Contains(st.objects[cursor.value].properties, PROPERTY_READ)
    then Some(st.objects[cursor.value]) else None
  }

  /** The list command: the directory object if asked for and readable, else a walk. */
  method RunList(ots: OtsClient, dir: bool) returns (rows: seq<Row>, r: CliResult<()>)
    requires Valid(ots.remote.st)
    requires forall o | o in ots.remote.st.objects :: !List(o.content, AS_WRITTEN).crashed
    modifies ots.remote
    ensures Valid(ots.remote.st)
    ensures var source := if dir then DirectorySource(ots.cfg, old(ots.remote.st)) else None;
            (rows, r) == if source.Some? then Parsed(source.value.content)
                         else Walked(ots.cfg, old(ots.remote.st.objects))
  {
    hide Contains, List, Walked, Parsed, IndexOf;
    ghost var before := ots.remote.st;
    if dir {
      var jump := ots.GoTo(0);
      if jump.Ok? {
        ghost var there := ots.remote.st;
        if there.cursor.Some? {
          WholeRead(ots.cfg, there);
        } else {
          NoCurrentObject(ots.cfg, there);
        }
        var data := ots.Read(0, None);
        if data.Ok? {
          rows, r := PrintDirectoryData(data.value);
          return;
        }
      }
    }
    rows, r := PrintDirectoryIter(ots);
  }

  /** The directory source told by the calls the command makes: it is there exactly when going to
      0 and then reading the whole object both succeed, and then it is the object so read. */
  lemma SourceIsWhatIsRead(cfg: Config, st: State)
    requires Valid(st)
    ensures var (there, r) := Moved(cfg, st, Jump(0));
            if r.Err? || Current(there).None? then DirectorySource(cfg, st).None?
            else
              var o := Current(there).value;
              var fetched := Fetch(cfg, there, 0, |o.content|).1;
              && (DirectorySource(cfg, st).Some? <==> fetched.Ok?)
              && (fetched.Ok? ==> DirectorySource(cfg, st) == Some(o) && fetched == Ok(o.content))
  {
    hide Moved, Fetch, Contains;
    MoveIsListMove(cfg, st, Jump(0));
    var there := Moved(cfg, st, Jump(0)).0;
    if there.cursor.Some? {
      WholeRead(cfg, there);
    }
  }

  lemma WholeRead(cfg: Config, st: State)
    requires Valid(st) && st.cursor.Some?
    ensures var o := st.objects[st.cursor.value];
            var (st', r) := Fetch(cfg, st, 0, |o.content|);
            && st'.objects == st.objects
            && if Contains(cfg.actionFeatures, 0x10) && Contains(o.properties, PROPERTY_READ)
               then r == Ok(o.content) else r.Err?
  {
    hide Fetch, Contains;
    var content := st.objects[st.cursor.value].content;
    FetchClamped(cfg, st, 0, |content|);
    assert content[0..|content|] == content;
  }

  // ---------- writing ----------

  /** Bytes from a file, or hexadecimal text from standard input. */
  datatype Input = File(bytes: seq<byte>) | Text(chars: seq<char>)

  lemma ModeIsTruncate()
    ensures Contains(0x02, 0x02) && !Contains(0x00, 0x02)
  {
  }

  /** How much of `data` is written: no more than the length argument, if given, and no more
      than fits between the offset and the allocated size. */
  function WrittenLength(data: seq<byte>, length: Option<u64>, size: nat, offset: nat): (n: nat)
    requires offset <= size
    ensures n <= |data| && offset + n <= size && (length.Some? ==> n <= length.value)
    ensures n == |data| || offset + n == size || (length.Some? && n == length.value)
  {
    Clamped(if length.Some? then Min(|data|, length.value) else |data|, size, offset)
  }

  /** The write command: select, decode, cut to the length argument, write. */
  method RunWrite(ots: OtsClient, sel: ObjSel, input: Input, offset: u64, length: Option<u64>, truncate: bool)
    returns (r: CliResult<()>)
    requires Valid(ots.remote.st)
    requires var s := Selected(ots.cfg, ots.remote.st, sel);
             s.cursor.Some? ==> offset <= ots.remote.st.objects[s.cursor.value].allocatedSize
    modifies ots.remote
    ensures Valid(ots.remote.st)
    ensures var before, s := old(ots.remote.st), Selected(ots.cfg, old(ots.remote.st), sel);
            var data := if input.File? then Some(input.bytes) else Hex.Decoded(input.chars);
            var mode: byte := if truncate then 0x02 else 0x00;
            if s.outcome.Err? then r == s.outcome && ots.remote.st.objects == before.objects
            else if data.None? then r == Err(HexError) && ots.remote.st.objects == before.objects
            else if s.cursor.None? then r == Err(Ots(Bluetooth)) && ots.remote.st.objects == before.objects
            else
              var o := before.objects[s.cursor.value];
              var sent := data.value[..WrittenLength(data.value, length, o.allocatedSize, offset)];
              && |ots.remote.st.log| >= |before.log| + s.requests
              && ots.remote.st.log[|before.log| + s.requests..] ==
                 Announced(ots.cfg, ControlPoint.Write(offset, |sent|, mode))
              && r == (if !Contains(ots.cfg.actionFeatures, 0x20) then Err(Ots(NotSupported))
                       else if !Contains(o.properties, 0x08)
                       then Err(Ots(Core(ActionError(ProcedureNotPermitted))))
                       else if offset > |o.content|
                       then Err(Ots(Core(ActionError(ActionInvalidParameter))))
                       else Ok(()))
              && ots.remote.st.objects ==
                 if r.Ok? then before.objects[s.cursor.value :=
                   o.(content := Patched(o.content, offset, sent, truncate))]
                 else before.objects
  {
    hide Contains, Patched, Store, Selected, Announced;
    var _ :- Select(ots, sel);
    ghost var there := ots.remote.st;
    var data: seq<byte>;
    match input {
      case File(bytes) => data := bytes;
      case Text(chars) =>
        var decoded := Hex.Decode(chars);
        if decoded.None? {
          return Err(HexError);
        }
        data := decoded.value;
    }
    if length.Some? && |data| > length.value {
      data := data[..length.value];
    }
    var mode := if truncate then ControlPoint.WRITE_TRUNCATE else 0;
    if there.cursor.Some? {
      var n := Clamped(|data|, there.objects[there.cursor.value].allocatedSize, offset);
      ghost var all := if input.File? then input.bytes else Hex.Decoded(input.chars).value;
      assert data[..n] == all[..n];
      assert Contains(mode, 0x02) == truncate by { ModeIsTruncate(); }
      StoreExactly(ots.cfg, there, offset, data[..n], mode);
    }
    var written := ots.Write(offset, data, mode);
    r := if written.Ok? then Ok(()) else Err(Ots(written.error));
  }
}
