// The two ways of listing a server's objects, reading the directory object and walking the
// list over the control point, report the same (bluez-async-ots/README.md, usage example).

module TwoPaths {
  import opened Wrappers
  import opened Bytes
  import opened Errors
  import opened Utf8
  import opened Uuids
  import opened ObjectMetadata
  import opened Directory
  import opened Server
  import opened Client
  import opened Cli
  import ControlPoint

  /** The entry has the identifier and name of the object, and names its type in whatever width. */
  predicate Describes(e: LegalEntry, o: Object) {
    e.id == o.id && e.name == o.name && UuidFromRaw(o.kind) == Ok(TypeOf(e))
  }

  predicate DescribeAll(es: seq<LegalEntry>, objects: seq<Object>) {
    |es| == |objects| && forall i | 0 <= i < |es| :: Describes(es[i], objects[i])
  }

  /** A walk prints identifiers only if the server has the characteristic for them. */
  function AsWalked(cfg: Config, rows: seq<Row>): seq<Row> {
    seq(|rows|, i requires 0 <= i < |rows| => if cfg.hasId then rows[i] else rows[i].(id := None))
  }

  function EntryRow(e: LegalEntry): Row {
    Row(Some(e.id), e.name, TypeOf(e))
  }

  function EntryRows(es: seq<LegalEntry>): seq<Row> {
    seq(|es|, i requires 0 <= i < |es| => EntryRow(es[i]))
  }

  /** The walk prints every entry. */
  lemma WalkPrintsAll(cfg: Config, objects: seq<Object>, es: seq<LegalEntry>)
    requires cfg.hasListPoint && objects != [] && DescribeAll(es, objects)
    ensures Walked(cfg, objects) == (AsWalked(cfg, EntryRows(es)), Ok(()))
  {
    hide ValidUtf8, UuidFromRaw, TypeOf;
    var rows := AsWalked(cfg, EntryRows(es));
    forall j | 0 <= j < |rows|
      ensures WalkItems(cfg, objects)[j] == Ok(rows[j])
    {
      assert Describes(es[j], objects[j]);
    }
    ReportIs(WalkItems(cfg, objects), rows);
  }

  /** Each entry of the directory is printed as it is, or is an error. */
  lemma DirectoryItemIs(es: seq<LegalEntry>, i: nat)
    requires i < |es|
    ensures var items := DirectoryItems(List(EncodeDirectory(es), AS_WRITTEN).items);
            && |items| == |es|
            && (items[i].Err? || items[i] == Ok(EntryRow(es[i])))
            && (items[i].Ok? <==> Accepted(es[i]))
  {
    hide ParseMetadata, EncodeBody, List, EncodeDirectory;
    DirectoryReadBack(es, AS_WRITTEN);
    AcceptedHead(es[i], AS_WRITTEN);
    AcceptedExactly(es[i]);
  }

  /** The directory prints a prefix of its entries, all of them exactly when it ends without
      an error, which it does exactly when the parser accepts every entry. */
  lemma DirectoryPrintsPrefix(es: seq<LegalEntry>)
    ensures var (rows, r) := Parsed(EncodeDirectory(es));
            && rows <= EntryRows(es)
            && (r.Ok? <==> rows == EntryRows(es))
            && (r.Ok? <==> forall e | e in es :: Accepted(e))
  {
    hide List, EncodeDirectory, DirectoryItems, Accepted, EntryRow;
    var items := DirectoryItems(List(EncodeDirectory(es), AS_WRITTEN).items);
    DirectoryReadBackLength(es);
    forall i | 0 <= i < |es|
      ensures |items| == |es|
      ensures items[i].Err? || items[i] == Ok(EntryRow(es[i]))
      ensures items[i].Ok? <==> Accepted(es[i])
    {
      DirectoryItemIs(es, i);
    }
    var k := FirstError(items);
    ReportIs(items, EntryRows(es)[..k]);
    if k < |es| {
      assert es[k] in es;
    }
  }

  lemma DirectoryReadBackLength(es: seq<LegalEntry>)
    ensures |DirectoryItems(List(EncodeDirectory(es), AS_WRITTEN).items)| == |es|
  {
    hide ParseMetadata, EncodeBody, List, EncodeDirectory;
    DirectoryReadBack(es, AS_WRITTEN);
  }

  function FirstError(items: seq<ClientResult<Row>>): (k: nat)
    ensures k <= |items|
    ensures forall j | 0 <= j < k :: items[j].Ok?
    ensures k < |items| ==> items[k].Err?
  {
    if items == [] || items[0].Err? then 0 else 1 + FirstError(items[1..])
  }

  /** When the directory object's bytes encode the server's objects in list order, listing from
      the directory never contradicts the walk: it prints the same rows up to the first entry
      the parser refuses, and all of them exactly if it refuses none. */
  lemma TwoPathAgreement(cfg: Config, objects: seq<Object>, es: seq<LegalEntry>)
    requires cfg.hasListPoint && objects != [] && DescribeAll(es, objects)
    ensures var (walked, w) := Walked(cfg, objects);
            var (rows, r) := Parsed(EncodeDirectory(es));
            && w.Ok?
            && AsWalked(cfg, rows) <= walked
            && (r.Ok? <==> AsWalked(cfg, rows) == walked)
            && (r.Ok? <==> forall e | e in es :: Accepted(e))
  {
    hide Walked, Parsed, EncodeDirectory, DescribeAll, Accepted;
    WalkPrintsAll(cfg, objects, es);
    DirectoryPrintsPrefix(es);
  }

  /** Object 0 is a readable directory of the server's objects, and the client may go to it. */
  predicate HasDirectory(cfg: Config, st: State, es: seq<LegalEntry>) {
    && MoveAllowed(cfg, Jump(0)) && Contains(cfg.actionFeatures, 0x10)
    && DescribeAll(es, st.objects)
    && var k := IndexOf(st.objects, 0);
       && k.Some? && st.objects[k.value].content == EncodeDirectory(es)
       && Contains(st.objects[k.value].properties, PROPERTY_READ)
  }

  /** The list command with `--dir` and without: for a server that has a directory the two runs
      agree as above, wherever the client stood before. */
  lemma ListCommandAgrees(cfg: Config, st: State, es: seq<LegalEntry>)
    requires Valid(st)
    ensures HasDirectory(cfg, st, es) ==>
              && DirectorySource(cfg, st).Some?
              && var (walked, w) := Walked(cfg, st.objects);
                 var (rows, r) := Parsed(DirectorySource(cfg, st).value.content);
                 && w.Ok?
                 && AsWalked(cfg, rows) <= walked
                 && (r.Ok? <==> AsWalked(cfg, rows) == walked)
                 && (r.Ok? <==> forall e | e in es :: Accepted(e))
  {
    hide Walked, Parsed, EncodeDirectory, DescribeAll, Accepted, Contains;
    if HasDirectory(cfg, st, es) {
      TwoPathAgreement(cfg, st.objects, es);
    }
  }

  /** `list --dir` reads an object other than the directory exactly when there is no object 0
      and a readable object happened to be selected: the missing object is no error to `go_to`,
      and the command asks only for the absence of an error. */
  lemma WrongDirectoryExactly(cfg: Config, st: State)
    requires Valid(st)
    ensures (DirectorySource(cfg, st).Some? && DirectorySource(cfg, st).value.id != 0) <==>
            && MoveAllowed(cfg, Jump(0)) && Contains(cfg.actionFeatures, 0x10)
            && (forall o | o in st.objects :: o.id != 0)
            && Current(st).Some? && Contains(Current(st).value.properties, PROPERTY_READ)
  {
    hide Contains;
  }

  /** The six identifier bytes of a directory record, parsed and passed to `go_to`, are the six
      bytes written after the opcode. */
  lemma IdentifierFidelity(raw: seq<byte>, gate: Gate)
    ensures var r := ParseMetadata(raw, gate);
            r.Ok? ==> |raw| >= 11 && r.value.id.Some? &&
                      ControlPoint.ListReqBytes(ControlPoint.GoTo(r.value.id.value)) == [0x05] + raw[..6]
  {
    hide ParseMetadata, ParseFields, ValidUtf8;
    ParseMetadataLayout(raw, gate);
    if ParseMetadata(raw, gate).Ok? {
      LeBytesOfValue(raw[..6]);
    }
  }
}
