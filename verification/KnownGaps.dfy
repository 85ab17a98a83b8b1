// Concrete inputs on which the code and its documentation part. Each goes with a lemma that says
// exactly when the two agree; that lemma is named beside it.

module KnownGaps {
  import opened Wrappers
  import opened Bytes
  import opened Errors
  import opened Utf8
  import Uuids
  import opened ObjectMetadata
  import opened Directory
  import opened Server
  import opened Client
  import opened Cli

  /** A record with a creation time only is refused (exactly: `BodyRoundTrip`, `AsWrittenOutcome`). */
  lemma CreationTimeAlone()
    ensures var e := Entry(1, [], Short(0x2ACA), None, None, Some(DateTime(2023, 5, 17, 12, 0, 0)), None, None, false);
            && Legal(e)
            && ParseMetadata(EncodeBody(e), INTENDED) == Ok(MetadataOf(e))
            && Starved(ParseMetadata(EncodeBody(e), AS_WRITTEN))
  {
    hide EncodeBody, ParseMetadata;
    var e := Entry(1, [], Short(0x2ACA), None, None, Some(DateTime(2023, 5, 17, 12, 0, 0)), None, None, false);
    BodyRoundTrip(e, INTENDED);
    AsWrittenOutcome(e);
  }

  /** An unnamed object without options makes a directory that is refused (exactly: `DirectoryRoundTrip`). */
  lemma UnnamedEntryAlone()
    ensures var e: LegalEntry := Entry(0, [], Short(0), None, None, None, None, None, false);
            List(EncodeDirectory([e]), INTENDED).items == [Err(NotEnoughData(12, 13))]
  {
    hide EncodeDirectory, List;
    var e: LegalEntry := Entry(0, [], Short(0), None, None, None, None, None, false);
    DirectoryReadBack([e], INTENDED);
    assert ReadBack([e], INTENDED) == [Err(NotEnoughData(12, 13))];
  }

  /** Thirteen zero bytes crash the iterator (exactly: `CrashExactly`). */
  lemma ZeroLengthRecord()
    ensures List(seq(13, _ => 0), AS_WRITTEN).crashed
  {
    var raw: seq<byte> := seq(13, _ => 0);
    assert SplitDirEntry(raw).Crash?;
  }

  /** A wide identifier selects another object (exactly: `JumpIsExact`). */
  lemma WideIdentifier(cfg: Config, st: State)
    requires Valid(st) && MoveAllowed(cfg, Jump(0x1_0000_0000_0005)) && |st.objects| == 1 && st.objects[0].id == 5
    ensures Moved(cfg, st, Jump(0x1_0000_0000_0005)).1 == Ok(true)
  {
    hide Moved, Contains;
    MoveIsListMove(cfg, st, Jump(0x1_0000_0000_0005));
    assert IndexOf(st.objects, 5) == Some(0);
  }

  /** Reading on from the second byte without a length is refused (exactly: `WholeReadOnlyFromStart`). */
  lemma ReadFromSecondByte(cfg: Config, st: State)
    requires Valid(st) && st.cursor.Some? && Contains(cfg.actionFeatures, 0x10)
    requires Contains(Current(st).value.properties, PROPERTY_READ) && |Current(st).value.content| == 2
    ensures Fetch(cfg, st, 1, 2).1 == Err(Core(ActionError(ActionInvalidParameter)))
  {
    hide Fetch, Contains;
    FetchExactly(cfg, st, 1, 2);
  }

  /** Without a directory object, `list --dir` prints nothing where a walk prints one object
      (exactly: `WrongDirectoryExactly`). */
  lemma MissingDirectory(cfg: Config, others: Others)
    requires MoveAllowed(cfg, Jump(0)) && Contains(cfg.actionFeatures, 0x10)
    ensures var o := Object(1, [], [0, 0], [], 0, PROPERTY_READ);
            var st := State([o], Some(0), Idle, [], others);
            && Valid(st)
            && DirectorySource(cfg, st) == Some(o)
            && Parsed(o.content) == ([], Ok(()))
            && |Walked(cfg, st.objects).0| == 1
  {
    hide ParseMetadata, Uuids.ShortUuid, Bytes.LeU16;
    var o := Object(1, [], [0, 0], [], 0, PROPERTY_READ);
    assert List(o.content, AS_WRITTEN).items == [];
    assert RowOf(cfg, o).Ok?;
    ReportIs(WalkItems(cfg, [o]), [RowOf(cfg, o).value]);
  }
}
