// The directory listing object (section 4.1 of the Object Transfer Service 1.0): a run of
// length-prefixed records, walked by the iterator `DirEntries` of core/src/types.rs.

module Directory {
  import opened Wrappers
  import opened Bytes
  import opened Errors
  import opened ObjectMetadata

  type Item = CoreResult<Metadata>

  // ---------- one step of framing ----------

  /** `Crash` stands for the slice `rec[2..]` of a record that states a length of 0 or 1. */
  datatype Split =
    | End
    | Record(body: seq<byte>, rest: seq<byte>)
    | Fault(error: Error)
    | Crash

  function SplitDirEntry(raw: seq<byte>): (s: Split)
    ensures s.Record? ==> |raw| == 2 + |s.body| + |s.rest| && LeU16(raw[..2]) as nat == 2 + |s.body|
    ensures s.Record? ==> raw[2..|s.body| + 2] == s.body && raw[|s.body| + 2..] == s.rest
  {
    if raw == [] then End else
    match CheckLen(|raw|, 13)
    case Err(error) => Fault(error)
    case Ok(_) =>
      var recordLen := LeU16(raw[..2]) as nat;
      match CheckLen(|raw|, recordLen)
      case Err(error) => Fault(error)
      case Ok(_) =>
        var rec, rest := raw[..recordLen], raw[recordLen..];
        if recordLen < 2 then Crash else Record(rec[2..], rest)
  }

  // ---------- reference reading of a whole buffer ----------

  /** Everything the iterator yields over `raw`, and whether it crashes instead of ending. */
  datatype Listing = Listing(items: seq<Item>, crashed: bool)

  function List(raw: seq<byte>, gate: Gate): Listing
    decreases |raw|
  {
    match SplitDirEntry(raw)
    case End => Listing([], false)
    case Fault(error) => Listing([Err(error)], false)
    case Crash => Listing([], true)
    case Record(body, rest) =>
      var tail := List(rest, gate);
      Listing([ParseMetadata(body, gate)] + tail.items, tail.crashed)
  }

  /** A whole record with its length prefix. */
  predicate IsFrame(bs: seq<byte>) {
    |bs| >= 2 && LeU16(bs[..2]) as nat == |bs|
  }

  type Frame = bs: seq<byte> | IsFrame(bs) witness EmptyFrame()

  function EmptyFrame(): (bs: seq<byte>)
    ensures IsFrame(bs)
  {
    Widths();
    LeFits(2, 2);
    LeBytes(2, 2)
  }

  /** The whole records at the front of `raw`. */
  function Frames(raw: seq<byte>): (frames: seq<Frame>)
    decreases |raw|
  {
    match SplitDirEntry(raw)
    case Record(body, rest) =>
      var frame := raw[..|body| + 2];
      assert frame[..2] == raw[..2];
      [frame] + Frames(rest)
    case _ => []
  }

  /** What is left of `raw` where no further whole record starts. */
  function Remainder(raw: seq<byte>): (tail: seq<byte>)
    ensures !SplitDirEntry(tail).Record?
    decreases |raw|
  {
    match SplitDirEntry(raw)
    case Record(_, rest) => Remainder(rest)
    case _ => raw
  }

  function Flatten(frames: seq<Frame>): seq<byte> {
    if frames == [] then [] else frames[0] + Flatten(frames[1..])
  }

  /** The item each record stands for, whatever surrounds it. */
  function ItemsOf(frames: seq<Frame>, gate: Gate): seq<Item> {
    seq(|frames|, i requires 0 <= i < |frames| => ParseMetadata(frames[i][2..], gate))
  }

  /** The length a record's prefix states. */
  function Stated(raw: seq<byte>): nat
    requires |raw| >= 2
  {
    raw[0] as nat + 0x100 * raw[1] as nat
  }

  /** Every answer of the framing step, told from the buffer's bytes alone. */
  lemma SplitExactly(raw: seq<byte>)
    ensures var n := |raw|;
            SplitDirEntry(raw) ==
            if n == 0 then End
            else if n < 13 then Fault(NotEnoughData(n, 13))
            else if n < Stated(raw) then Fault(NotEnoughData(n, Stated(raw)))
            else if Stated(raw) < 2 then Crash
            else Record(raw[2..Stated(raw)], raw[Stated(raw)..])
  {
    if |raw| >= 13 && 2 <= Stated(raw) <= |raw| {
      assert raw[..Stated(raw)][2..] == raw[2..Stated(raw)];
    }
  }

  /** The framing error a buffer ends in when no further whole record starts: too short for a
      header, or shorter than its header states. */
  function FramingError(tail: seq<byte>): seq<Item> {
    if tail == [] then []
    else if |tail| < 13 then [Err(NotEnoughData(|tail|, 13))]
    else if |tail| < Stated(tail) then [Err(NotEnoughData(|tail|, Stated(tail)))]
    else []
  }

  /** No byte is lost. */
  lemma {:induction false} Conservation(raw: seq<byte>)
    ensures Flatten(Frames(raw)) + Remainder(raw) == raw
    decreases |raw|
  {
    hide SplitDirEntry, IsFrame, LeU16, Frames;
    FramesStep(raw);
    match SplitDirEntry(raw)
    case Record(body, rest) =>
      var frame := Frames(raw)[0];
      Conservation(rest);
      FlattenCons(frame, Frames(rest));
      assert Frames(raw) == [frame] + Frames(rest);
      AppendAssociates(frame, Flatten(Frames(rest)), Remainder(rest));
      assert raw == frame + rest;
    case _ =>
  }

  lemma AppendAssociates<T>(a: seq<T>, b: seq<T>, c: seq<T>)
    ensures a + b + c == a + (b + c)
  {
  }

  lemma FlattenCons(frame: Frame, frames: seq<Frame>)
    ensures Flatten([frame] + frames) == frame + Flatten(frames)
  {
    assert ([frame] + frames)[1..] == frames;
  }

  /** The items are one per whole record, each read from its own bytes alone, followed by the
      framing error of the remainder: so a framing error comes last and at most once, and a
      reading that does not crash ends in one exactly when bytes remain. */
  lemma {:induction false} OneItemPerFrame(raw: seq<byte>, gate: Gate)
    ensures List(raw, gate).items == ItemsOf(Frames(raw), gate) + FramingError(Remainder(raw))
    ensures List(raw, gate).crashed <==> |Remainder(raw)| >= 13 && Stated(Remainder(raw)) < 2
    ensures !List(raw, gate).crashed ==> (|FramingError(Remainder(raw))| == 1 <==> Remainder(raw) != [])
    decreases |raw|
  {
    hide ParseMetadata, SplitDirEntry, IsFrame, LeU16;
    SplitExactly(raw);
    ListStep(raw, gate);
    match SplitDirEntry(raw)
    case Record(body, rest) =>
      OneItemPerFrame(rest, gate);
      FirstFrame(raw, gate);
    case _ =>
  }

  lemma FirstFrame(raw: seq<byte>, gate: Gate)
    requires SplitDirEntry(raw).Record?
    ensures ItemsOf(Frames(raw), gate) ==
            [ParseMetadata(SplitDirEntry(raw).body, gate)] + ItemsOf(Frames(SplitDirEntry(raw).rest), gate)
  {
    hide ParseMetadata, SplitDirEntry, IsFrame, LeU16, ItemsOf;
    var frame, frames := Frames(raw)[0], Frames(SplitDirEntry(raw).rest);
    ItemsCons(frame, frames, gate);
    assert Frames(raw) == [frame] + frames;
    assert frame[2..] == SplitDirEntry(raw).body;
  }

  lemma ItemsCons(frame: Frame, frames: seq<Frame>, gate: Gate)
    ensures ItemsOf([frame] + frames, gate) == [ParseMetadata(frame[2..], gate)] + ItemsOf(frames, gate)
  {
    hide ParseMetadata;
  }

  /** Only a whole header that states a length of 0 or 1 crashes the iterator. */
  lemma CrashExactly(raw: seq<byte>, gate: Gate)
    ensures List(raw, gate).crashed <==>
            |Remainder(raw)| >= 13 && LeU16(Remainder(raw)[..2]) < 2
  {
    OneItemPerFrame(raw, gate);
  }

  // ---------- termination with a bound ----------

  function ItemBound(n: nat): nat {
    if n < 13 then 1 else (n - 13) / 2 + 2
  }

  lemma {:induction false} ItemsAreBounded(raw: seq<byte>, gate: Gate)
    ensures |List(raw, gate).items| <= ItemBound(|raw|)
    decreases |raw|
  {
    hide ParseMetadata;
    match SplitDirEntry(raw)
    case Record(body, rest) => ItemsAreBounded(rest, gate);
    case _ =>
  }

  /** A buffer of `n` bytes made of the shortest frames. */
  function ShortFrames(n: nat): (bs: seq<byte>)
    ensures |bs| == n
  {
    if n < 2 then seq(n, _ => 0) else [2, 0] + ShortFrames(n - 2)
  }

  /** The bound is reached at every size of at least one byte. */
  lemma {:induction false} BoundIsReached(n: nat, gate: Gate)
    requires n > 0
    ensures |List(ShortFrames(n), gate).items| == ItemBound(n)
    ensures !List(ShortFrames(n), gate).crashed
  {
    hide ParseMetadata;
    if n >= 13 {
      var raw := ShortFrames(n);
      assert raw[2..] == ShortFrames(n - 2);
      BoundIsReached(n - 2, gate);
    }
  }

  // ---------- isolation of faults ----------

  /** Where record `i` starts. */
  function Offset(frames: seq<Frame>, i: nat): nat
    requires i <= |frames|
  {
    if i == 0 then 0 else |frames[0]| + Offset(frames[1..], i - 1)
  }

  /** The two buffers differ at most in body bytes of record `i` of `a`. */
  predicate SameOutsideBody(a: seq<byte>, b: seq<byte>, i: nat)
    requires i < |Frames(a)|
  {
    && |a| == |b|
    && var start := Offset(Frames(a), i);
       forall p | 0 <= p < |a| && (p < start + 2 || p >= start + |Frames(a)[i]|) :: a[p] == b[p]
  }

  /** Damage confined to one record's body changes that record's item and nothing else. */
  lemma {:induction false} FaultsAreIsolated(a: seq<byte>, b: seq<byte>, i: nat, gate: Gate)
    requires i < |Frames(a)| && SameOutsideBody(a, b, i)
    ensures |Frames(b)| == |Frames(a)|
    ensures i < |List(a, gate).items|
    ensures List(b, gate) ==
            List(a, gate).(items := List(a, gate).items[i := ParseMetadata(Frames(b)[i][2..], gate)])
    decreases i
  {
    hide ParseMetadata, LeU16, SplitDirEntry, SameOutsideBody, Offset, List, Frames;
    ListStep(a, gate);
    ListStep(b, gate);
    FramesStep(a);
    FramesStep(b);
    if i == 0 {
      SameFirstFrame(a, b);
    } else {
      var n := |Frames(a)[0]|;
      SameTails(a, b, i);
      FaultsAreIsolated(a[n..], b[n..], i - 1, gate);
      UpdateTail(List(a, gate).items[0], List(a[n..], gate).items, i, ParseMetadata(Frames(b)[i][2..], gate));
    }
  }

  lemma UpdateTail<T>(x: T, s: seq<T>, i: nat, v: T)
    requires 0 < i <= |s|
    ensures ([x] + s)[i := v] == [x] + s[i - 1 := v]
  {
  }

  lemma FramesStep(raw: seq<byte>)
    ensures !SplitDirEntry(raw).Record? ==> Frames(raw) == []
    ensures SplitDirEntry(raw).Record? ==>
              var s := SplitDirEntry(raw);
              && |Frames(raw)| == 1 + |Frames(s.rest)|
              && Frames(raw)[0] == raw[..|s.body| + 2]
              && Frames(raw)[1..] == Frames(s.rest)
              && forall k :: 0 < k < |Frames(raw)| ==> Frames(raw)[k] == Frames(s.rest)[k - 1]
  {
    hide SplitDirEntry, IsFrame;
  }

  /** Framing is decided by the two-byte header and the buffer's length. */
  lemma SameHeader(a: seq<byte>, b: seq<byte>)
    requires SplitDirEntry(a).Record? && |a| == |b| && a[..2] == b[..2]
    ensures var n := |Frames(a)[0]|;
            && 2 <= n <= |a| && SplitDirEntry(a).rest == a[n..]
            && SplitDirEntry(b) == Record(b[2..n], b[n..])
  {
  }

  lemma SameFirstFrame(a: seq<byte>, b: seq<byte>)
    requires Frames(a) != [] && SameOutsideBody(a, b, 0)
    ensures var n := |Frames(a)[0]|;
            && 2 <= n <= |a| && SplitDirEntry(a).rest == a[n..]
            && SplitDirEntry(b) == Record(b[2..n], a[n..])
  {
    hide IsFrame, LeU16, SplitDirEntry;
    assert a[..2] == b[..2];
    SameHeader(a, b);
    var n := |Frames(a)[0]|;
    assert a[n..] == b[n..];
  }

  lemma SameTails(a: seq<byte>, b: seq<byte>, i: nat)
    requires 0 < i < |Frames(a)| && SameOutsideBody(a, b, i)
    ensures var n := |Frames(a)[0]|;
            && n <= |a| && Frames(a)[1..] == Frames(a[n..])
            && SplitDirEntry(b).Record? && SplitDirEntry(b).rest == b[n..]
            && a[..n] == b[..n]
            && SameOutsideBody(a[n..], b[n..], i - 1)
  {
    hide IsFrame, LeU16, SplitDirEntry;
    assert a[..2] == b[..2];
    SameHeader(a, b);
    var n := |Frames(a)[0]|;
    var start := Offset(Frames(a), i);
    assert start == n + Offset(Frames(a[n..]), i - 1);
    assert a[..n] == b[..n];
    forall p | 0 <= p < |a| - n && (p < start - n + 2 || p >= start - n + |Frames(a)[i]|)
      ensures a[n..][p] == b[n..][p]
    {
      assert a[n + p] == b[n + p];
    }
  }

  // ---------- round trip of whole directories ----------

  function EncodeRecord(e: Entry): seq<byte>
    requires Legal(e)
  {
    LeBytes(|EncodeBody(e)| + 2, 2) + EncodeBody(e)
  }

  function EncodeDirectory(es: seq<LegalEntry>): seq<byte>
  {
    if es == [] then [] else EncodeRecord(es[0]) + EncodeDirectory(es[1..])
  }

  /** What entry `i` is read back as. An entry too short for the parser costs its own item
      only; in last place it is the framing check that refuses it. */
  function ReadBackOne(es: seq<LegalEntry>, i: nat, gate: Gate): Item
    requires i < |es|
  {
    if i == |es| - 1 && !LongEnough(es[i]) then Err(NotEnoughData(12, 13))
    else ParseMetadata(EncodeBody(es[i]), gate)
  }

  function ReadBack(es: seq<LegalEntry>, gate: Gate): seq<Item> {
    seq(|es|, i requires 0 <= i < |es| => ReadBackOne(es, i, gate))
  }

  lemma {:induction false} DirectoryReadBack(es: seq<LegalEntry>, gate: Gate)
    ensures List(EncodeDirectory(es), gate) == Listing(ReadBack(es, gate), false)
  {
    hide ParseMetadata, EncodeBody, EncodeRecord, LongEnough, SplitDirEntry, ReadBack, List;
    var raw := EncodeDirectory(es);
    ListStep(raw, gate);
    ReadBackCons(es, gate);
    if es == [] {
      NothingToSplit();
    } else {
      SplitEncoded(es[0], EncodeDirectory(es[1..]));
      RecordSizes(es);
      DirectoryReadBack(es[1..], gate);
    }
  }

  lemma NothingToSplit()
    ensures SplitDirEntry([]).End?
  {
  }

  /** The definition of `List`, for proofs that need it unfolded once. */
  lemma ListStep(raw: seq<byte>, gate: Gate)
    ensures var s := SplitDirEntry(raw);
            List(raw, gate) ==
            if s.Record?
            then Listing([ParseMetadata(s.body, gate)] + List(s.rest, gate).items, List(s.rest, gate).crashed)
            else Listing(if s.Fault? then [Err(s.error)] else [], s.Crash?)
  {
    hide ParseMetadata, SplitDirEntry;
  }

  lemma ReadBackCons(es: seq<LegalEntry>, gate: Gate)
    ensures es == [] ==> ReadBack(es, gate) == []
    ensures es != [] ==> ReadBack(es, gate) == [ReadBackOne(es, 0, gate)] + ReadBack(es[1..], gate)
    ensures |es| == 1 ==> ReadBack(es, gate) == [ReadBackOne(es, 0, gate)]
  {
    hide ParseMetadata, EncodeBody, LongEnough;
  }

  /** Only a last entry that is too short leaves fewer than the thirteen bytes of a record. */
  lemma RecordSizes(es: seq<LegalEntry>)
    requires es != []
    ensures |EncodeDirectory(es)| >= 12
    ensures |EncodeDirectory(es)| < 13 <==> |es| == 1 && !LongEnough(es[0])
  {
    BodySize(es[0]);
    if |es| > 1 {
      BodySize(es[1]);
    }
  }

  lemma SplitEncoded(e: LegalEntry, rest: seq<byte>)
    ensures SplitDirEntry(EncodeRecord(e) + rest) ==
            if |EncodeRecord(e) + rest| < 13 then Fault(NotEnoughData(|EncodeRecord(e) + rest|, 13))
            else Record(EncodeBody(e), rest)
  {
    BodySize(e);
    var raw, n := EncodeRecord(e) + rest, |EncodeBody(e)| + 2;
    assert raw[..2] == LeBytes(n, 2);
    Widths();
    LeFits(n, 2);
    assert raw[..n] == EncodeRecord(e) && raw[n..] == rest;
    assert EncodeRecord(e)[2..] == EncodeBody(e);
  }

  /** Iterating an encoded directory gives back exactly its entries, with no error, if and only
      if every entry is readable: always through the intended gate but for entries shorter than
      eleven bytes, and as written only when each entry has both timestamps or neither. */
  lemma DirectoryRoundTrip(es: seq<LegalEntry>, gate: Gate)
    ensures List(EncodeDirectory(es), gate) == Listing(Entries(es), false) <==> forall e | e in es :: Readable(e, gate)
  {
    hide ParseMetadata, EncodeBody;
    DirectoryReadBack(es, gate);
    forall i | 0 <= i < |es|
      ensures ReadBack(es, gate)[i] == Entries(es)[i] <==> Readable(es[i], gate)
    {
      BodyRoundTrip(es[i], gate);
    }
    if forall e | e in es :: Readable(e, gate) {
      assert ReadBack(es, gate) == Entries(es);
    }
  }

  function Entries(es: seq<LegalEntry>): seq<Item> {
    seq(|es|, i requires 0 <= i < |es| => Ok(MetadataOf(es[i])))
  }

  // ---------- the iterator ----------

  /** The iterator over a directory object's bytes, as the code is written. */
  class DirEntries {
    var raw: seq<byte>
    var done: bool

    ghost const data: seq<byte>           // the bytes the iterator was made from
    ghost var taken: seq<Frame>       // the records cut off so far, with their prefixes

    /** Nothing is lost: what was taken and what is left make up the original bytes. */
    ghost predicate Valid()
      reads this
    {
      Flatten(taken) + raw == data
    }

    /** All that later calls will yield. */
    ghost function Pending(): Listing
      reads this
    {
      if done then Listing([], false) else List(raw, AS_WRITTEN)
    }

    constructor (bytes: seq<byte>)
      ensures Valid() && data == bytes && taken == []
      ensures Pending() == List(bytes, AS_WRITTEN)
    {
      raw, done := bytes, false;
      data, taken := bytes, [];
    }

    /** `Iterator::next`. The call must not meet a record that states a length of 0 or 1. */
    method Next() returns (item: Option<Item>)
      requires Valid()
      requires !done ==> !SplitDirEntry(raw).Crash?
      modifies this
      ensures Valid()
      // it yields the first pending item, and `None` only when there is none
      ensures old(Pending()).items == (if item.Some? then [item.value] else []) + Pending().items
      ensures Pending().crashed == old(Pending()).crashed
      // it takes one record per body it parses, and no bytes otherwise
      ensures if !old(done) && SplitDirEntry(old(raw)).Record?
              then |taken| == |old(taken)| + 1 && old(taken) <= taken
                   && item == Some(ParseMetadata(taken[|old(taken)|][2..], AS_WRITTEN))
                   && done == (raw == [])
              else taken == old(taken) && raw == old(raw) && done
      // a framing error is the last item, and after `None` nothing changes any more
      ensures item.None? ==> Pending().items == []
      ensures !old(done) && SplitDirEntry(old(raw)).Fault? ==> item == Some(Err(SplitDirEntry(old(raw)).error))
      ensures old(done) ==> item.None?
    {
      hide ParseMetadata;
      if done {
        item := None;
      } else {
        match SplitDirEntry(raw)
        case Record(fst, rst) =>
          item := Some(ParseMetadata(fst, AS_WRITTEN));
          ghost var frame := raw[..|fst| + 2];
          assert frame[2..] == fst;
          assert frame[..2] == raw[..2];
          FlattenSnoc(taken, frame);
          assert Flatten(taken + [frame]) + rst == Flatten(taken) + raw;
          taken := taken + [frame];
          assert List(raw, AS_WRITTEN) ==
                 Listing([item.value] + List(rst, AS_WRITTEN).items, List(rst, AS_WRITTEN).crashed);
          raw := rst;
          if raw == [] {
            done := true;
          }
        case End =>
          done := true;
          item := None;
        case Fault(error) =>
          done := true;
          item := Some(Err(error));
      }
    }
  }

  lemma {:induction false} FlattenSnoc(frames: seq<Frame>, frame: Frame)
    ensures Flatten(frames + [frame]) == Flatten(frames) + frame
  {
    if frames != [] {
      FlattenSnoc(frames[1..], frame);
      assert (frames + [frame])[1..] == frames[1..] + [frame];
    }
  }
}
