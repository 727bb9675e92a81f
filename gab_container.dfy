/**
 * The GAB1 and GAB2 containers: a sample payload that starts with a
 * four-byte magic ("GAB1" or "GAB2") and one more byte, followed by
 * tag/size/data records.  A GAB1 record has a 2-byte tag and a 2-byte size;
 * a GAB2 record has a 2-byte tag and a 4-byte size.  Records are read one
 * after the other; a record whose tag the layout does not know is skipped by
 * its declared size.
 *
 * `Records` is the specification of the walk: the list of record headers
 * the decoder visits.  `Walk` is the decoder's loop, proved to produce the
 * effects `Effects` assigns to that list.
 */
module GabContainer {
  import opened CInt
  import opened SubtitleText

  /** "GAB1" */
  const GAB1_MAGIC: seq<Byte> := [0x47, 0x41, 0x42, 0x31]
  /** "GAB2" */
  const GAB2_MAGIC: seq<Byte> := [0x47, 0x41, 0x42, 0x32]

  /** The first record follows the magic and one further byte. */
  const RECORDS_START: nat := 5

  /** GAB1: the track name as a narrow string. */
  const GAB1_LANGUAGE := 0
  /** GAB1: start, stop and a narrow line. */
  const GAB1_ENTRY := 1
  /** GAB1 and GAB2: the track name as a wide string. */
  const GAB1_LANGUAGE_UNICODE := 2
  /** GAB1: start, stop and a wide line. */
  const GAB1_ENTRY_UNICODE := 3
  /** GAB2: a whole subtitle file to open in place of the track. */
  const GAB1_RAWTEXTSUBTITLE := 4

  /**
   * The two ways a narrow string becomes a wide one: `ansiToW` is the
   * `CString` constructor from a `char*`, which converts through the
   * current ANSI code page; `aToW` is `AToW`, which widens each byte.
   */
  datatype Widen = Widen(ansiToW: Text -> Text, aToW: Text -> Text)

  /** The two layouts differ in the width of the size field and the tags known. */
  datatype Layout = Gab1 | Gab2

  function SizeWidth(layout: Layout): nat
  {
    if layout == Gab1 then 2 else 4
  }

  /** The bytes of a record header: the tag and the size. */
  function HeaderSize(layout: Layout): (n: nat)
    ensures n >= 4
  {
    2 + SizeWidth(layout)
  }

  function Magic(layout: Layout): seq<Byte>
  {
    if layout == Gab1 then GAB1_MAGIC else GAB2_MAGIC
  }

  /**
   * `strncmp(data, magic, 4) == 0`.  A payload shorter than the magic
   * does not match.
   */
  predicate HasMagic(data: seq<Byte>, layout: Layout)
  {
    |data| >= 4 && data[..4] == Magic(layout)
  }

  /**
   * The two magics differ in their last byte, so the GAB2 test is reached
   * only by a payload that is not GAB1; and a payload with either magic
   * starts with `G`, so it would pass the plain-text length and NUL tests.
   */
  lemma MagicExclusive(data: seq<Byte>)
    ensures !(HasMagic(data, Gab1) && HasMagic(data, Gab2))
    ensures HasMagic(data, Gab1) || HasMagic(data, Gab2) ==> |data| > 1 && data[0] == 0x47
  {
    if |data| >= 4 {
      assert data[..4][0] == data[0] && data[..4][3] == data[3];
    }
  }

  /** A record as the decoder sees it: its tag, its size and where its data starts. */
  datatype Record = Record(tag: nat, size: nat, at: nat)

  /** All records of a list have their data start inside the payload. */
  predicate InPayload(data: seq<Byte>, rs: seq<Record>)
  {
    forall k :: 0 <= k < |rs| ==> rs[k].at <= |data|
  }

  // Sequence shapes, proved once outside the walk's context.

  lemma AppendAssoc<T>(a: seq<T>, b: seq<T>, c: seq<T>)
    ensures a + (b + c) == (a + b) + c
  {}

  lemma AppendEmpty<T>(a: seq<T>)
    ensures a + [] == a
  {}

  lemma InitOfSnoc<T>(a: seq<T>, x: T)
    ensures (a + [x])[..|a|] == a && (a + [x])[|a|] == x
  {}

  lemma TailOfCons<T>(x: T, a: seq<T>)
    ensures ([x] + a)[1..] == a && ([x] + a)[0] == x
  {}

  lemma ConsOfTail<T>(a: seq<T>)
    requires |a| > 0
    ensures [a[0]] + a[1..] == a
  {}

  /**
   * The headers visited by a walk from offset `pos`: the walk stops once
   * `pos` reaches the end of the payload, or where a header would not fit.
   * Each record is followed by the next one `size` bytes after its header.
   */
  function Records(data: seq<Byte>, layout: Layout, pos: nat): (rs: seq<Record>)
    ensures InPayload(data, rs)
    decreases |data| - pos
  {
    if pos + HeaderSize(layout) > |data| then []
    else
      var r := Header(data, layout, pos);
      [r] + Records(data, layout, r.at + r.size)
  }

  /** The header at `pos`: the tag, then the size, in the layout's widths. */
  function Header(data: seq<Byte>, layout: Layout, pos: nat): (r: Record)
    requires pos + HeaderSize(layout) <= |data|
    ensures r.at == pos + HeaderSize(layout)
    ensures r.tag < 0x1_0000
  {
    Record(ReadWord(data, pos), ReadLe(data, pos + 2, SizeWidth(layout)), pos + HeaderSize(layout))
  }

  /**
   * The walk tiles the payload: the first header is at `pos`, each record
   * is the header read just before its data, and the next header follows
   * that data, so every step advances by at least the header size.
   */
  lemma {:induction false} RecordsTile(data: seq<Byte>, layout: Layout, pos: nat)
    ensures var rs := Records(data, layout, pos);
      (|rs| > 0 ==> rs[0].at == pos + HeaderSize(layout)) &&
      (forall k :: 0 <= k < |rs| - 1 ==> rs[k + 1].at == rs[k].at + rs[k].size + HeaderSize(layout)) &&
      (forall k :: 0 <= k < |rs| ==>
        rs[k].at >= HeaderSize(layout) && rs[k] == Header(data, layout, rs[k].at - HeaderSize(layout)))
    decreases |data| - pos
  {
    var rs := Records(data, layout, pos);
    if pos + HeaderSize(layout) <= |data| {
      var next := rs[0].at + rs[0].size;
      RecordsTile(data, layout, next);
      var tail := Records(data, layout, next);
      assert rs == [rs[0]] + tail;
      forall k | 1 <= k < |rs|
        ensures rs[k] == tail[k - 1]
      {}
    }
  }

  /** What one record does to the track. */
  datatype Effect =
    | SetName(name: Text)
    | AddEntry(text: Text, unicode: bool, startMs: Int32, stopMs: Int32)
    | Reopen(blob: seq<Byte>)

  /** The tags that add to the track and make the decoder report an invalidation. */
  predicate IsEntryTag(layout: Layout, tag: nat)
  {
    if layout == Gab1 then tag == GAB1_ENTRY || tag == GAB1_ENTRY_UNICODE
    else tag == GAB1_RAWTEXTSUBTITLE
  }

  /** The tags a layout acts on. */
  predicate IsKnownTag(layout: Layout, tag: nat)
  {
    if layout == Gab1 then tag <= GAB1_ENTRY_UNICODE
    else tag == GAB1_LANGUAGE_UNICODE || tag == GAB1_RAWTEXTSUBTITLE
  }

  /** The data of record `r`: `size` bytes after its header, cut at the end of the payload. */
  function Body(data: seq<Byte>, r: Record): (body: seq<Byte>)
    requires r.at <= |data|
    ensures |body| <= r.size
  {
    data[r.at..if r.at + r.size <= |data| then r.at + r.size else |data|]
  }

  /**
   * The effect of record `r`.  The GAB1 track name is converted through
   * the ANSI code page, a GAB1 entry line is widened byte by byte.
   * An entry's start and stop are the two little-endian `int`s at the start
   * of its data and its line follows them.  An entry whose two `int`s lie
   * past the end of the payload has no effect in the model.
   */
  function RecordEffect(data: seq<Byte>, layout: Layout, r: Record, widen: Widen): (e: seq<Effect>)
    requires r.at <= |data|
    ensures |e| <= 1
  {
    match layout
    case Gab1 =>
      if r.tag == GAB1_LANGUAGE then [SetName(widen.ansiToW(NarrowString(data, r.at)))]
      else if r.tag == GAB1_LANGUAGE_UNICODE then [SetName(WideString(data, r.at))]
      else if IsEntryTag(layout, r.tag) && r.at + 8 <= |data| then
        var text := if r.tag == GAB1_ENTRY then widen.aToW(NarrowString(data, r.at + 8)) else WideString(data, r.at + 8);
        [AddEntry(text, r.tag == GAB1_ENTRY_UNICODE, ReadInt32(data, r.at), ReadInt32(data, r.at + 4))]
      else []
    case Gab2 =>
      if r.tag == GAB1_LANGUAGE_UNICODE then [SetName(WideString(data, r.at))]
      else if r.tag == GAB1_RAWTEXTSUBTITLE then [Reopen(Body(data, r))]
      else []
  }

  /**
   * What each tag does: unknown tags nothing; the name tags only set the
   * name; the GAB1 entry tags add one entry timed by the record's first two
   * `int`s, the value reported upward being the sample's own start; GAB2's
   * tag 4 reopens the track from the record's data.
   */
  lemma RecordEffectMeaning(data: seq<Byte>, layout: Layout, r: Record, widen: Widen)
    requires r.at <= |data|
    ensures var e := RecordEffect(data, layout, r, widen);
      && (!IsKnownTag(layout, r.tag) ==> e == [])
      && (layout == Gab1 && r.tag == GAB1_LANGUAGE ==> e == [SetName(widen.ansiToW(NarrowString(data, r.at)))])
      && (|e| == 1 && e[0].SetName? ==> r.tag == GAB1_LANGUAGE || r.tag == GAB1_LANGUAGE_UNICODE)
      && (|e| == 1 && e[0].AddEntry? ==>
            && layout == Gab1 && IsEntryTag(layout, r.tag) && r.at + 8 <= |data|
            && e[0].startMs == ReadInt32(data, r.at) && e[0].stopMs == ReadInt32(data, r.at + 4)
            && e[0].unicode == (r.tag == GAB1_ENTRY_UNICODE))
      && (|e| == 1 && e[0].Reopen? ==> layout == Gab2 && r.tag == GAB1_RAWTEXTSUBTITLE && e[0].blob == Body(data, r))
      && (IsKnownTag(layout, r.tag) && (IsEntryTag(layout, r.tag) && layout == Gab1 ==> r.at + 8 <= |data|) ==> |e| == 1)
  {}

  /** The effects of a list of records, in order. */
  function Effects(data: seq<Byte>, layout: Layout, rs: seq<Record>, widen: Widen): seq<Effect>
    requires InPayload(data, rs)
  {
    if |rs| == 0 then []
    else Effects(data, layout, rs[..|rs| - 1], widen) + RecordEffect(data, layout, rs[|rs| - 1], widen)
  }

  /** Whether a list of records holds one with an entry tag (the decoder's `fInvalidate`). */
  function Invalidates(layout: Layout, rs: seq<Record>): bool
  {
    if |rs| == 0 then false
    else Invalidates(layout, rs[..|rs| - 1]) || IsEntryTag(layout, rs[|rs| - 1].tag)
  }

  /** The decoder reports an invalidation exactly when some record carries an entry tag. */
  lemma {:induction false} InvalidatesIff(layout: Layout, rs: seq<Record>)
    ensures Invalidates(layout, rs) <==> exists k :: 0 <= k < |rs| && IsEntryTag(layout, rs[k].tag)
  {
    if |rs| > 0 {
      var init := rs[..|rs| - 1];
      InvalidatesIff(layout, init);
      if Invalidates(layout, init) {
        var k :| 0 <= k < |init| && IsEntryTag(layout, init[k].tag);
        assert rs[k] == init[k];
      }
      if exists k :: 0 <= k < |rs| && IsEntryTag(layout, rs[k].tag) {
        var k :| 0 <= k < |rs| && IsEntryTag(layout, rs[k].tag);
        if k < |rs| - 1 {
          assert init[k] == rs[k];
        }
      }
    }
  }

  /** Effects that change the track's entries, as opposed to its name. */
  predicate IsChange(e: Effect)
  {
    e.AddEntry? || e.Reopen?
  }

  predicate HasChange(es: seq<Effect>)
  {
    exists i :: 0 <= i < |es| && IsChange(es[i])
  }

  lemma HasChangeAppend(a: seq<Effect>, b: seq<Effect>)
    ensures HasChange(a + b) <==> HasChange(a) || HasChange(b)
  {
    if HasChange(a + b) {
      var i :| 0 <= i < |a + b| && IsChange((a + b)[i]);
      if i >= |a| {
        assert b[i - |a|] == (a + b)[i];
      }
    }
    if HasChange(a) {
      var i :| 0 <= i < |a| && IsChange(a[i]);
      assert (a + b)[i] == a[i];
    }
    if HasChange(b) {
      var i :| 0 <= i < |b| && IsChange(b[i]);
      assert (a + b)[|a| + i] == b[i];
    }
  }

  /** Every GAB1 entry record holds its two `int`s inside the payload. */
  predicate EntriesFit(data: seq<Byte>, layout: Layout, rs: seq<Record>)
  {
    forall k :: 0 <= k < |rs| && layout == Gab1 && IsEntryTag(layout, rs[k].tag) ==> rs[k].at + 8 <= |data|
  }

  /** An entry added or a track reopened implies the invalidation flag. */
  lemma {:induction false} ChangeImpliesInvalidates(data: seq<Byte>, layout: Layout, rs: seq<Record>, widen: Widen)
    requires InPayload(data, rs)
    ensures HasChange(Effects(data, layout, rs, widen)) ==> Invalidates(layout, rs)
  {
    if |rs| > 0 {
      var init, last := rs[..|rs| - 1], rs[|rs| - 1];
      ChangeImpliesInvalidates(data, layout, init, widen);
      HasChangeAppend(Effects(data, layout, init, widen), RecordEffect(data, layout, last, widen));
      RecordEffectMeaning(data, layout, last, widen);
    }
  }

  /** When every entry record fits, the invalidation flag implies an entry added or a track reopened. */
  lemma {:induction false} InvalidatesImpliesChange(data: seq<Byte>, layout: Layout, rs: seq<Record>, widen: Widen)
    requires InPayload(data, rs) && EntriesFit(data, layout, rs)
    ensures Invalidates(layout, rs) ==> HasChange(Effects(data, layout, rs, widen))
  {
    if |rs| > 0 {
      var init, last := rs[..|rs| - 1], rs[|rs| - 1];
      assert EntriesFit(data, layout, init) by {
        forall k | 0 <= k < |init|
          ensures init[k] == rs[k]
        {}
      }
      InvalidatesImpliesChange(data, layout, init, widen);
      HasChangeAppend(Effects(data, layout, init, widen), RecordEffect(data, layout, last, widen));
      RecordEffectMeaning(data, layout, last, widen);
      var e := RecordEffect(data, layout, last, widen);
      if IsEntryTag(layout, last.tag) {
        assert IsChange(e[0]);
      }
    }
  }

  /** A list of records without a known tag has no effect. */
  lemma {:induction false} UnknownTagsSkipped(data: seq<Byte>, layout: Layout, rs: seq<Record>, widen: Widen)
    requires InPayload(data, rs) && forall k :: 0 <= k < |rs| ==> !IsKnownTag(layout, rs[k].tag)
    ensures Effects(data, layout, rs, widen) == []
    ensures !Invalidates(layout, rs)
  {
    if |rs| > 0 {
      UnknownTagsSkipped(data, layout, rs[..|rs| - 1], widen);
    }
  }

  /** The records visited from `pos` are the header there, then those after its data. */
  lemma RecordsFirst(data: seq<Byte>, layout: Layout, pos: nat)
    requires pos + HeaderSize(layout) <= |data|
    ensures var r := Header(data, layout, pos);
      Records(data, layout, pos) == [r] + Records(data, layout, r.at + r.size)
  {}

  /**
   * The state of the walk at offset `ptr`: `done` are the records visited so
   * far, the rest of the walk starts at `ptr`, and `effects` and `invalidate`
   * are what the visited records produced.
   */
  ghost predicate Walked(data: seq<Byte>, layout: Layout, widen: Widen, ptr: nat,
                         done: seq<Record>, effects: seq<Effect>, invalidate: bool)
  {
    && InPayload(data, done)
    && Records(data, layout, RECORDS_START) == done + Records(data, layout, ptr)
    && effects == Effects(data, layout, done, widen)
    && invalidate == Invalidates(layout, done)
  }

  /** Visiting one more record extends what the walk has produced by that record's effect. */
  lemma EffectsSnoc(data: seq<Byte>, layout: Layout, widen: Widen, done: seq<Record>, r: Record)
    requires InPayload(data, done) && r.at <= |data|
    ensures InPayload(data, done + [r])
    ensures Effects(data, layout, done + [r], widen) == Effects(data, layout, done, widen) + RecordEffect(data, layout, r, widen)
    ensures Invalidates(layout, done + [r]) == (Invalidates(layout, done) || IsEntryTag(layout, r.tag))
  {
    InitOfSnoc(done, r);
  }

  /** The header at `ptr` moves from the records ahead to the records visited. */
  lemma RecordsSnoc(data: seq<Byte>, layout: Layout, ptr: nat, done: seq<Record>, r: Record)
    requires ptr + HeaderSize(layout) <= |data| && r == Header(data, layout, ptr)
    requires Records(data, layout, RECORDS_START) == done + Records(data, layout, ptr)
    ensures Records(data, layout, RECORDS_START) == (done + [r]) + Records(data, layout, r.at + r.size)
  {
    RecordsFirst(data, layout, ptr);
    AppendAssoc(done, [r], Records(data, layout, r.at + r.size));
  }

  /** One step of the walk: the header at `ptr` joins the records already visited. */
  lemma WalkStep(data: seq<Byte>, layout: Layout, widen: Widen, ptr: nat, r: Record,
                 done: seq<Record>, effects: seq<Effect>, invalidate: bool)
    requires ptr + HeaderSize(layout) <= |data| && r == Header(data, layout, ptr)
    requires Walked(data, layout, widen, ptr, done, effects, invalidate)
    ensures Walked(data, layout, widen, r.at + r.size, done + [r],
                   effects + RecordEffect(data, layout, r, widen), invalidate || IsEntryTag(layout, r.tag))
  {
    EffectsSnoc(data, layout, widen, done, r);
    RecordsSnoc(data, layout, ptr, done, r);
  }

  /** Acts on the record whose header is at `ptr` and moves past its data. */
  method VisitRecord(data: seq<Byte>, layout: Layout, widen: Widen, ptr: nat,
                     ghost done: seq<Record>, effects: seq<Effect>, invalidate: bool)
    returns (next: nat, ghost done': seq<Record>, effects': seq<Effect>, invalidate': bool)
    requires ptr + HeaderSize(layout) <= |data|
    requires Walked(data, layout, widen, ptr, done, effects, invalidate)
    ensures Walked(data, layout, widen, next, done', effects', invalidate')
    ensures ptr < next
  {
    var r := Header(data, layout, ptr);
    WalkStep(data, layout, widen, ptr, r, done, effects, invalidate);
    effects', invalidate' := effects + RecordEffect(data, layout, r, widen), invalidate || IsEntryTag(layout, r.tag);
    done', next := done + [r], r.at + r.size;
  }

  /** Where no further header fits, the walk has visited every record. */
  lemma WalkEnd(data: seq<Byte>, layout: Layout, widen: Widen, ptr: nat,
                done: seq<Record>, effects: seq<Effect>, invalidate: bool)
    requires ptr + HeaderSize(layout) > |data|
    requires Walked(data, layout, widen, ptr, done, effects, invalidate)
    ensures effects == Effects(data, layout, Records(data, layout, RECORDS_START), widen)
    ensures invalidate == Invalidates(layout, Records(data, layout, RECORDS_START))
  {
    AppendEmpty(done);
  }

  /**
   * The walk: from offset 5, read a header, act on the tag, skip the
   * record's data, and stop once the end of the payload is reached.  The
   * source reads each header without checking that it fits; the walk stops
   * where it would not.
   */
  method Walk(data: seq<Byte>, layout: Layout, widen: Widen) returns (effects: seq<Effect>, invalidate: bool)
    ensures effects == Effects(data, layout, Records(data, layout, RECORDS_START), widen)
    ensures invalidate == Invalidates(layout, Records(data, layout, RECORDS_START))
  {
    var hdr := HeaderSize(layout);
    var ptr := RECORDS_START;
    ghost var done: seq<Record> := [];
    effects, invalidate := [], false;
    while ptr + hdr <= |data|
      invariant Walked(data, layout, widen, ptr, done, effects, invalidate)
      decreases |data| - ptr
    {
      ptr, done, effects, invalidate := VisitRecord(data, layout, widen, ptr, done, effects, invalidate);
    }
    WalkEnd(data, layout, widen, ptr, done, effects, invalidate);
  }

  // ---------------------------------------------------------------------
  // Writing a container, and reading it back

  /** A record as a writer supplies it: a tag and its data. */
  datatype RawRecord = RawRecord(tag: nat, body: seq<Byte>)

  /** The tag fits in a WORD and the size in the layout's size field. */
  predicate Encodable(layout: Layout, rs: seq<RawRecord>)
  {
    forall k :: 0 <= k < |rs| ==> rs[k].tag < 0x1_0000 && |rs[k].body| < Pow256(SizeWidth(layout))
  }

  /** One record written out: tag, size, data. */
  function EncodeRecord(layout: Layout, r: RawRecord): (bytes: seq<Byte>)
    ensures |bytes| == HeaderSize(layout) + |r.body|
  {
    LeBytes(r.tag, 2) + LeBytes(|r.body|, SizeWidth(layout)) + r.body
  }

  /** The records written one after the other. */
  function EncodeRecords(layout: Layout, rs: seq<RawRecord>): (bytes: seq<Byte>)
  {
    if |rs| == 0 then [] else EncodeRecord(layout, rs[0]) + EncodeRecords(layout, rs[1..])
  }

  /** A whole container: magic, one pad byte, records. */
  function Container(layout: Layout, rs: seq<RawRecord>): (bytes: seq<Byte>)
    ensures HasMagic(bytes, layout)
  {
    Magic(layout) + [0] + EncodeRecords(layout, rs)
  }

  /** The records read back as tags and data. */
  function Unframe(data: seq<Byte>, recs: seq<Record>): (rs: seq<RawRecord>)
    requires InPayload(data, recs)
    ensures |rs| == |recs|
  {
    if |recs| == 0 then []
    else
      assert InPayload(data, recs[1..]) by {
        forall k | 0 <= k < |recs| - 1
          ensures recs[1..][k] == recs[k + 1]
        {}
      }
      [RawRecord(recs[0].tag, Body(data, recs[0]))] + Unframe(data, recs[1..])
  }

  lemma SliceOfMiddle<T>(a: seq<T>, b: seq<T>, c: seq<T>)
    ensures (a + b + c)[|a|..|a| + |b|] == b
  {}

  lemma Regroup<T>(p: seq<T>, x: seq<T>, y: seq<T>, z: seq<T>, rest: seq<T>)
    ensures p + (x + y + z) + rest == p + x + (y + z + rest)
    ensures p + (x + y + z) + rest == (p + x) + y + (z + rest)
    ensures p + (x + y + z) + rest == (p + x + y) + z + rest
  {}

  /** The header of an encoded record reads back the tag and size written, and its data the data written. */
  lemma HeaderOfEncoded(data: seq<Byte>, prefix: seq<Byte>, layout: Layout, r: RawRecord, rest: seq<Byte>)
    requires data == prefix + EncodeRecord(layout, r) + rest
    requires r.tag < 0x1_0000 && |r.body| < Pow256(SizeWidth(layout))
    ensures |prefix| + HeaderSize(layout) + |r.body| <= |data|
    ensures Header(data, layout, |prefix|).tag == r.tag
    ensures Header(data, layout, |prefix|).size == |r.body|
    ensures Body(data, Header(data, layout, |prefix|)) == r.body
  {
    var w := SizeWidth(layout);
    var tagBytes, sizeBytes := LeBytes(r.tag, 2), LeBytes(|r.body|, w);
    Regroup(prefix, tagBytes, sizeBytes, r.body, rest);
    SliceOfMiddle(prefix, tagBytes, sizeBytes + r.body + rest);
    assert Pow256(2) == 0x1_0000;
    ReadLeBytes(data, |prefix|, r.tag, 2);
    SliceOfMiddle(prefix + tagBytes, sizeBytes, r.body + rest);
    ReadLeBytes(data, |prefix| + 2, |r.body|, w);
    SliceOfMiddle(prefix + tagBytes + sizeBytes, r.body, rest);
  }

  /** Reading back a record and those after it. */
  lemma UnframeCons(data: seq<Byte>, r: Record, later: seq<Record>, rs: seq<RawRecord>)
    requires r.at <= |data| && InPayload(data, later)
    requires |rs| > 0 && r.tag == rs[0].tag && Body(data, r) == rs[0].body
    requires Unframe(data, later) == rs[1..]
    ensures InPayload(data, [r] + later)
    ensures Unframe(data, [r] + later) == rs
  {
    TailOfCons(r, later);
    ConsOfTail(rs);
  }

  /** The walk goes on where the record at `pos` ends. */
  lemma RecordsAfter(data: seq<Byte>, layout: Layout, pos: nat, size: nat, next: nat)
    requires pos + HeaderSize(layout) <= |data| && Header(data, layout, pos).size == size
    requires next == pos + HeaderSize(layout) + size
    ensures Records(data, layout, pos) == [Header(data, layout, pos)] + Records(data, layout, next)
  {
    RecordsFirst(data, layout, pos);
  }

  lemma EncodableTail(layout: Layout, rs: seq<RawRecord>)
    requires Encodable(layout, rs) && |rs| > 0
    ensures Encodable(layout, rs[1..])
  {
    forall k | 0 <= k < |rs| - 1
      ensures rs[1..][k] == rs[k + 1]
    {}
  }

  /** Reading encoded records back gives the records written. */
  lemma {:induction false} RecordsOfEncoded(prefix: seq<Byte>, layout: Layout, rs: seq<RawRecord>)
    requires Encodable(layout, rs)
    ensures var data := prefix + EncodeRecords(layout, rs);
      Unframe(data, Records(data, layout, |prefix|)) == rs
    decreases |rs|
  {
    var data := prefix + EncodeRecords(layout, rs);
    if |rs| == 0 {
      assert Records(data, layout, |prefix|) == [];
    } else {
      var e, rest := EncodeRecord(layout, rs[0]), EncodeRecords(layout, rs[1..]);
      assert EncodeRecords(layout, rs) == e + rest;
      AppendAssoc(prefix, e, rest);
      HeaderOfEncoded(data, prefix, layout, rs[0], rest);
      RecordsAfter(data, layout, |prefix|, |rs[0].body|, |prefix + e|);
      EncodableTail(layout, rs);
      RecordsOfEncoded(prefix + e, layout, rs[1..]);
      UnframeCons(data, Header(data, layout, |prefix|), Records(data, layout, |prefix + e|), rs);
    }
  }

  /** The walk over a written container reads back exactly the records written. */
  lemma ContainerRoundTrip(layout: Layout, rs: seq<RawRecord>)
    requires Encodable(layout, rs)
    ensures var data := Container(layout, rs);
      Unframe(data, Records(data, layout, RECORDS_START)) == rs
  {
    RecordsOfEncoded(Magic(layout) + [0], layout, rs);
  }
}
