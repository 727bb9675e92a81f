/**
 * `CSubtitleInputPin::DecodeSample`: one queued sample becomes calls on the
 * subtitle track the pin feeds, chosen by the media type the pin was
 * connected with, and the decoder reports from which time the rendered
 * subtitles must be recomputed: the sample's start when it changed the
 * track's text, -1 otherwise.
 *
 * The track classes (`CRenderedTextSubtitle`, `ssf::CRenderer`,
 * `CVobSubStream`, `CRenderedHdmvSubtitle`) are outside the model: the
 * decoder's result is the list of calls it makes on them, in order.  The
 * text conversions it calls (`AToW`, `UTF8To16`, `WebVTT2SSA`, `Explode`)
 * are parameters.
 */
module SubtitleDecoder {
  import opened CInt
  import opened SubtitleText
  import opened GabContainer

  datatype MajorType = TextMajor | SubtitleMajor | OtherMajor

  datatype SubType = Utf8 | WebVtt | Ssa | Ass | Ass2 | Ssf | VobSub | Hdmv | Dvb | OtherSub

  /** The connected media type (`m_mt`): its major type and subtype. */
  datatype MediaType = MediaType(major: MajorType, subtype: SubType)

  /**
   * A queued sample (`SubtitleSample`): the media sample itself, handed on
   * for the image formats, or a copy of its payload bytes.
   */
  datatype Sample =
    | MediaSample(start: int, stop: int, buffer: nat)
    | DataSample(start: int, stop: int, data: seq<Byte>)

  /** The text conversions the decoder calls. */
  datatype Codecs = Codecs(
    widen: Widen,                      // CString(const char*) and AToW: a narrow string made wide
    utf8To16: seq<Byte> -> Text,       // UTF8To16 of the payload
    webVttToSsa: Text -> Text,         // WebVTT2SSA
    explode: (Text, nat) -> seq<Text>) // Explode on ',' into at most the given number of pieces

  datatype Margins = Margins(left: Int32, right: Int32, top: Int32, bottom: Int32)

  /** The fields of an SSA/ASS event line (`STSEntry`). */
  datatype AssEntry = AssEntry(readOrder: Int32, layer: Int32, style: Text, actor: Text,
                               margins: Margins, effect: Text, text: Text)

  /** A call the decoder makes on the track. */
  datatype TrackOp =
    | Rts(effect: Effect)                                 // set the name, the short `Add`, or `Open`
    | AddAss(entry: AssEntry, startMs: Int32, stopMs: Int32) // the `Add` taking every SSA/ASS field
    | AppendSsf(start: int, stop: int, text: Text)        // `ssf::CRenderer::Append`, times in ticks
    | AddVobSub(start: int, stop: int, data: seq<Byte>)   // `CVobSubStream::Add`
    | ParseHdmv(buffer: nat)                              // `CRenderedHdmvSubtitle::ParseSample`

  /** The calls made for one sample and the decoder's `fInvalidate`. */
  datatype Decoded = Decoded(ops: seq<TrackOp>, invalidate: bool)

  const Nothing := Decoded([], false)

  /** Calls that change the text a text track shows. */
  predicate IsTextChange(op: TrackOp)
  {
    (op.Rts? && IsChange(op.effect)) || op.AddAss? || op.AppendSsf?
  }

  predicate HasTextChange(ops: seq<TrackOp>)
  {
    exists i :: 0 <= i < |ops| && IsTextChange(ops[i])
  }

  // ---------------------------------------------------------------------
  // The decoder, as a function of the media type and the sample

  function AsRts(es: seq<Effect>): seq<TrackOp>
  {
    seq(|es|, i requires 0 <= i < |es| => Rts(es[i]))
  }

  /** A GAB1 or GAB2 payload: the effects of the records the walk visits. */
  function GabDecoded(data: seq<Byte>, layout: Layout, widen: Widen): Decoded
  {
    var rs := Records(data, layout, RECORDS_START);
    Decoded(AsRts(Effects(data, layout, rs, widen)), Invalidates(layout, rs))
  }

  /** A plain text payload with CR LF turned into LF and the white space at both ends removed. */
  function PlainLine(data: seq<Byte>): Text
  {
    Trim(ReplaceCrLf(data))
  }

  function PlainDecoded(aToW: Text -> Text, start: int, stop: int, data: seq<Byte>): Decoded
  {
    if |data| > 1 && data[0] != 0 && |PlainLine(data)| > 0 then
      Decoded([Rts(AddEntry(aToW(PlainLine(data)), false, TicksToMs(start), TicksToMs(stop)))], true)
    else Nothing
  }

  /** The number of comma-separated fields of an event line: 10 for ASS2, 9 otherwise. */
  function FieldCount(subtype: SubType): nat
  {
    if subtype == Ass2 then 10 else 9
  }

  /**
   * The entry a split event line describes: read order, layer, style,
   * actor, left, right and vertical margin, the bottom margin when there
   * are 10 fields, effect and text; the integers are read by `wcstol`.
   */
  function AssFields(pieces: seq<Text>): (e: AssEntry)
    requires |pieces| == 9 || |pieces| == 10
    ensures e.style == pieces[2] && e.actor == pieces[3]
    ensures e.effect == pieces[|pieces| - 2] && e.text == pieces[|pieces| - 1]
    ensures |pieces| == 9 ==> e.margins.bottom == e.margins.top
  {
    var n := |pieces|;
    var vertical := Wcstol(pieces[6]);
    var bottom := if n == 10 then Wcstol(pieces[7]) else vertical;
    AssEntry(Wcstol(pieces[0]), Wcstol(pieces[1]), pieces[2], pieces[3],
             Margins(Wcstol(pieces[4]), Wcstol(pieces[5]), vertical, bottom),
             pieces[n - 2], pieces[n - 1])
  }

  function AssDecoded(subtype: SubType, explode: (Text, nat) -> seq<Text>, start: int, stop: int, line: Text): Decoded
  {
    var n := FieldCount(subtype);
    var pieces := explode(line, n);
    if |pieces| == n && |pieces[n - 1]| > 0 then
      Decoded([AddAss(AssFields(pieces), TicksToMs(start), TicksToMs(stop))], true)
    else Nothing
  }

  /** A payload of the major type `Subtitle` read as UTF-8 and trimmed. */
  function SubtitleLine(codecs: Codecs, data: seq<Byte>): Text
  {
    Trim(codecs.utf8To16(data))
  }

  /** A payload of the major type `Subtitle`, by subtype. */
  function SubtitleDecoded(subtype: SubType, codecs: Codecs, start: int, stop: int, data: seq<Byte>): Decoded
  {
    LineDecoded(subtype, codecs, start, stop, data, SubtitleLine(codecs, data))
  }

  /** What `SubtitleDecoded` does once the payload's trimmed line `line` is known. */
  function LineDecoded(subtype: SubType, codecs: Codecs, start: int, stop: int, data: seq<Byte>, line: Text): Decoded
  {
    match subtype
    case Utf8 | WebVtt =>
      if |line| == 0 then Nothing
      else
        var text := if subtype == WebVtt then codecs.webVttToSsa(line) else line;
        Decoded([Rts(AddEntry(text, true, TicksToMs(start), TicksToMs(stop)))], true)
    case Ssa | Ass | Ass2 =>
      if |line| == 0 then Nothing else AssDecoded(subtype, codecs.explode, start, stop, line)
    case Ssf =>
      if |line| == 0 then Nothing else Decoded([AppendSsf(start, stop, line)], true)
    case VobSub => Decoded([AddVobSub(start, stop, data)], false)
    case _ => Nothing
  }

  /** A payload of the major type `Text`: GAB1, GAB2 or plain text. */
  function TextDecoded(widen: Widen, start: int, stop: int, data: seq<Byte>): Decoded
  {
    if HasMagic(data, Gab1) then GabDecoded(data, Gab1, widen)
    else if HasMagic(data, Gab2) then GabDecoded(data, Gab2, widen)
    else PlainDecoded(widen.aToW, start, stop, data)
  }

  /** What the decoder does with one sample. */
  function Decode(mt: MediaType, codecs: Codecs, s: Sample): (r: Decoded)
    ensures s.MediaSample? ==>
      r == Decoded(if mt.subtype == Hdmv || mt.subtype == Dvb then [ParseHdmv(s.buffer)] else [], false)
    ensures s.DataSample? && (|s.data| == 0 || mt.major == OtherMajor) ==> r == Nothing
  {
    match s
    case MediaSample(_, _, buffer) =>
      Decoded(if mt.subtype == Hdmv || mt.subtype == Dvb then [ParseHdmv(buffer)] else [], false)
    case DataSample(start, stop, data) =>
      if |data| == 0 then Nothing
      else if mt.major == TextMajor then TextDecoded(codecs.widen, start, stop, data)
      else if mt.major == SubtitleMajor then SubtitleDecoded(mt.subtype, codecs, start, stop, data)
      else Nothing
  }

  /** The value the decoder returns: `fInvalidate ? tStart : -1`. */
  function Reported(mt: MediaType, codecs: Codecs, s: Sample): (r: int)
    ensures r == s.start || r == -1
  {
    if Decode(mt, codecs, s).invalidate then s.start else -1
  }

  // ---------------------------------------------------------------------
  // The decoder as the pin runs it

  /** Decodes one sample, walking the records of a GAB1 or GAB2 payload with `Walk`. */
  method DecodeSample(mt: MediaType, codecs: Codecs, s: Sample) returns (ops: seq<TrackOp>, invalidateFrom: int)
    ensures ops == Decode(mt, codecs, s).ops
    ensures invalidateFrom == Reported(mt, codecs, s)
  {
    var invalidate := false;
    ops := [];
    if s.MediaSample? {
      if mt.subtype == Hdmv || mt.subtype == Dvb {
        ops := [ParseHdmv(s.buffer)];
      }
      return ops, -1;
    }
    var data := s.data;
    if |data| == 0 {
      return [], -1;
    }
    if mt.major == TextMajor {
      if HasMagic(data, Gab1) {
        var effects;
        effects, invalidate := Walk(data, Gab1, codecs.widen);
        ops := AsRts(effects);
      } else if HasMagic(data, Gab2) {
        var effects;
        effects, invalidate := Walk(data, Gab2, codecs.widen);
        ops := AsRts(effects);
      } else {
        ops, invalidate := DecodePlain(codecs.widen.aToW, s.start, s.stop, data);
      }
    } else if mt.major == SubtitleMajor {
      ops, invalidate := DecodeSubtitle(mt.subtype, codecs, s.start, s.stop, data);
    }
    invalidateFrom := if invalidate then s.start else -1;
  }

  /**
   * Plain text: one narrow entry, timed in milliseconds, exactly when the
   * payload is longer than one byte, does not start with NUL and has a unit
   * that is not white space before its first NUL; it reports exactly when
   * it adds.
   */
  method DecodePlain(aToW: Text -> Text, start: int, stop: int, data: seq<Byte>) returns (ops: seq<TrackOp>, invalidate: bool)
    ensures invalidate <==> ops != []
    ensures ops != [] <==> |data| > 1 && data[0] != 0 && !AllSpace(data[..NulIndex(data)])
    ensures ops != [] ==> ops == [Rts(AddEntry(aToW(PlainLine(data)), false, TicksToMs(start), TicksToMs(stop)))]
    ensures Decoded(ops, invalidate) == PlainDecoded(aToW, start, stop, data)
  {
    ops, invalidate := [], false;
    if |data| > 1 && data[0] != 0 {
      NormalisedTrimEmpty(data);
      var line := Trim(ReplaceCrLf(data));
      if |line| > 0 {
        ops := [Rts(AddEntry(aToW(line), false, TicksToMs(start), TicksToMs(stop)))];
        invalidate := true;
      }
    }
  }

  /**
   * A payload of the major type `Subtitle`: VobSub data is handed on whole
   * and never reported; every text subtype skips a line that trims to
   * nothing, and otherwise makes one call, which it reports.
   */
  method DecodeSubtitle(subtype: SubType, codecs: Codecs, start: int, stop: int, data: seq<Byte>)
    returns (ops: seq<TrackOp>, invalidate: bool)
    ensures subtype == VobSub ==> ops == [AddVobSub(start, stop, data)] && !invalidate
    ensures subtype != VobSub ==> (invalidate <==> ops != []) && |ops| <= 1
    ensures subtype != VobSub && |SubtitleLine(codecs, data)| == 0 ==> ops == []
    ensures subtype !in {Utf8, WebVtt, Ssa, Ass, Ass2, Ssf, VobSub} ==> ops == []
    ensures var line := SubtitleLine(codecs, data);
      && (subtype == Utf8 && |line| > 0 ==> ops == [Rts(AddEntry(line, true, TicksToMs(start), TicksToMs(stop)))])
      && (subtype == WebVtt && |line| > 0 ==>
            ops == [Rts(AddEntry(codecs.webVttToSsa(line), true, TicksToMs(start), TicksToMs(stop)))])
      && (subtype == Ssf && |line| > 0 ==> ops == [AppendSsf(start, stop, line)])
    ensures var line := SubtitleLine(codecs, data);
      var n := FieldCount(subtype);
      var pieces := codecs.explode(line, n);
      subtype in {Ssa, Ass, Ass2} ==>
        && (ops != [] <==> |line| > 0 && |pieces| == n && |pieces[n - 1]| > 0)
        && (ops != [] ==> ops == [AddAss(AssFields(pieces), TicksToMs(start), TicksToMs(stop))])
    ensures Decoded(ops, invalidate) == SubtitleDecoded(subtype, codecs, start, stop, data)
  {
    ghost var trimmed := SubtitleLine(codecs, data);
    ghost var spec := LineDecoded(subtype, codecs, start, stop, data, trimmed);
    ops, invalidate := [], false;
    match subtype {
    case Utf8 | WebVtt =>
      var line := SubtitleLine(codecs, data);
      if |line| > 0 {
        if subtype == WebVtt {
          line := codecs.webVttToSsa(line);
        }
        ops := [Rts(AddEntry(line, true, TicksToMs(start), TicksToMs(stop)))];
        invalidate := true;
      }
      assert Decoded(ops, invalidate) == spec;
    case Ssa | Ass | Ass2 =>
      var line := SubtitleLine(codecs, data);
      if |line| > 0 {
        ops, invalidate := DecodeAss(subtype, codecs.explode, start, stop, line);
      }
      assert Decoded(ops, invalidate) == spec;
    case Ssf =>
      var line := SubtitleLine(codecs, data);
      if |line| > 0 {
        ops := [AppendSsf(start, stop, line)];
        invalidate := true;
      }
      assert Decoded(ops, invalidate) == spec;
    case VobSub =>
      ops := [AddVobSub(start, stop, data)];
      assert Decoded(ops, invalidate) == spec;
    case _ =>
      assert Decoded(ops, invalidate) == spec;
    }
    LineDecodedShape(subtype, codecs, start, stop, data, trimmed);
    LineDecodedText(subtype, codecs, start, stop, data, trimmed);
    LineDecodedAss(subtype, codecs, start, stop, data, trimmed);
  }

  /**
   * What a `Subtitle` payload with trimmed line `line` gives: VobSub data is handed on whole and never
   * reported; every other subtype makes at most one call, none for a line
   * that trims to nothing or for a subtype the decoder does not read, and
   * reports exactly when it makes one.
   */
  lemma {:induction false} LineDecodedShape(subtype: SubType, codecs: Codecs, start: int, stop: int, data: seq<Byte>, line: Text)
    ensures var d := LineDecoded(subtype, codecs, start, stop, data, line);
      && (subtype == VobSub ==> d.ops == [AddVobSub(start, stop, data)] && !d.invalidate)
      && (subtype != VobSub ==> (d.invalidate <==> d.ops != []) && |d.ops| <= 1)
      && (subtype != VobSub && |line| == 0 ==> d.ops == [])
      && (subtype !in {Utf8, WebVtt, Ssa, Ass, Ass2, Ssf, VobSub} ==> d.ops == [])
  {
  }

  /** UTF-8 and WebVTT add one Unicode entry, WebVTT converted to SSA first; SSF appends the line. */
  lemma {:induction false} LineDecodedText(subtype: SubType, codecs: Codecs, start: int, stop: int, data: seq<Byte>, line: Text)
    ensures var d := LineDecoded(subtype, codecs, start, stop, data, line);
      && (subtype == Utf8 && |line| > 0 ==> d.ops == [Rts(AddEntry(line, true, TicksToMs(start), TicksToMs(stop)))])
      && (subtype == WebVtt && |line| > 0 ==>
            d.ops == [Rts(AddEntry(codecs.webVttToSsa(line), true, TicksToMs(start), TicksToMs(stop)))])
      && (subtype == Ssf && |line| > 0 ==> d.ops == [AppendSsf(start, stop, line)])
  {
  }

  /**
   * SSA, ASS and ASS2 add an entry exactly when the line splits into the
   * subtype's number of fields and the last, the text, is not empty.
   */
  lemma {:induction false} LineDecodedAss(subtype: SubType, codecs: Codecs, start: int, stop: int, data: seq<Byte>, line: Text)
    ensures var d := LineDecoded(subtype, codecs, start, stop, data, line);
      var n := FieldCount(subtype);
      var pieces := codecs.explode(line, n);
      subtype in {Ssa, Ass, Ass2} ==>
        && (d.ops != [] <==> |line| > 0 && |pieces| == n && |pieces[n - 1]| > 0)
        && (d.ops != [] ==> d.ops == [AddAss(AssFields(pieces), TicksToMs(start), TicksToMs(stop))])
  {
  }

  /** An event line: the entry is filled only from exactly `fields` pieces, and added only with text. */
  method DecodeAss(subtype: SubType, explode: (Text, nat) -> seq<Text>, start: int, stop: int, line: Text)
    returns (ops: seq<TrackOp>, invalidate: bool)
    ensures invalidate <==> ops != []
    ensures |explode(line, FieldCount(subtype))| != FieldCount(subtype) ==> ops == []
    ensures forall e :: explode(line, FieldCount(subtype)) == AssPieces(e, FieldCount(subtype))
                        && (subtype != Ass2 ==> e.margins.bottom == e.margins.top) ==>
              ops == if |e.text| > 0 then [AddAss(e, TicksToMs(start), TicksToMs(stop))] else []
    ensures Decoded(ops, invalidate) == AssDecoded(subtype, explode, start, stop, line)
  {
    ops, invalidate := [], false;
    var fields := FieldCount(subtype);
    var pieces := explode(line, fields);
    if |pieces| == fields {
      var entry := AssFields(pieces);
      if |entry.text| > 0 {
        ops := [AddAss(entry, TicksToMs(start), TicksToMs(stop))];
        invalidate := true;
      }
    }
    forall e | explode(line, fields) == AssPieces(e, fields) && (subtype != Ass2 ==> e.margins.bottom == e.margins.top)
      ensures ops == if |e.text| > 0 then [AddAss(e, TicksToMs(start), TicksToMs(stop))] else []
    {
      AssRoundTrip(e, fields);
    }
  }

  // ---------------------------------------------------------------------
  // What the decoder promises

  /** The value reported is the sample's own start or -1, never a time read from the payload. */
  lemma {:induction false} ReportedIsStartOrNone(mt: MediaType, codecs: Codecs, s: Sample)
    ensures Reported(mt, codecs, s) == s.start || Reported(mt, codecs, s) == -1
    ensures Decode(mt, codecs, s).invalidate ==> Reported(mt, codecs, s) == s.start
  {}

  /** Media samples, empty payloads and VobSub payloads never report an invalidation. */
  lemma {:induction false} NeverReported(mt: MediaType, codecs: Codecs, s: Sample)
    requires s.MediaSample? || |s.data| == 0 || (mt.major == SubtitleMajor && mt.subtype == VobSub)
    ensures Reported(mt, codecs, s) == -1
    ensures !HasTextChange(Decode(mt, codecs, s).ops)
  {
    var d := Decode(mt, codecs, s);
    if s.DataSample? && |s.data| > 0 {
      assert d == LineDecoded(VobSub, codecs, s.start, s.stop, s.data, SubtitleLine(codecs, s.data));
      assert d.ops == [AddVobSub(s.start, s.stop, s.data)];
    }
    assert forall i | 0 <= i < |d.ops| :: !IsTextChange(d.ops[i]);
  }

  lemma {:induction false} RtsChanges(es: seq<Effect>)
    ensures HasTextChange(AsRts(es)) <==> HasChange(es)
  {
    var ops := AsRts(es);
    if HasChange(es) {
      var i :| 0 <= i < |es| && IsChange(es[i]);
      assert IsTextChange(ops[i]);
    }
    if HasTextChange(ops) {
      var i :| 0 <= i < |ops| && IsTextChange(ops[i]);
      assert IsChange(es[i]);
    }
  }

  /** A GAB1 payload whose entry records each hold their two times. */
  predicate GabEntriesFit(mt: MediaType, s: Sample)
  {
    s.DataSample? && mt.major == TextMajor && HasMagic(s.data, Gab1) ==>
      EntriesFit(s.data, Gab1, Records(s.data, Gab1, RECORDS_START))
  }

  /**
   * The decoder reports an invalidation when it changed the text of the
   * track; and, unless a GAB1 entry record is cut short, only then.
   */
  lemma {:induction false} ReportedIffTextChange(mt: MediaType, codecs: Codecs, s: Sample)
    ensures HasTextChange(Decode(mt, codecs, s).ops) ==> Decode(mt, codecs, s).invalidate
    ensures GabEntriesFit(mt, s) && Decode(mt, codecs, s).invalidate ==> HasTextChange(Decode(mt, codecs, s).ops)
  {
    if s.DataSample? && |s.data| > 0 && mt.major == TextMajor {
      var data := s.data;
      if HasMagic(data, Gab1) || HasMagic(data, Gab2) {
        var layout := if HasMagic(data, Gab1) then Gab1 else Gab2;
        assert Decode(mt, codecs, s) == GabDecoded(data, layout, codecs.widen);
        GabChangeIffInvalidates(data, layout, codecs.widen);
      } else {
        PlainChangeIffInvalidates(codecs.widen.aToW, s.start, s.stop, data);
      }
    } else if s.DataSample? && |s.data| > 0 && mt.major == SubtitleMajor {
      SubtitleChangeIffInvalidates(mt.subtype, codecs, s.start, s.stop, s.data);
    }
  }

  /** A GAB payload reports when its effects change the text, and only then unless an entry record is cut short. */
  lemma {:induction false} GabChangeIffInvalidates(data: seq<Byte>, layout: Layout, widen: Widen)
    ensures var d := GabDecoded(data, layout, widen);
      && (HasTextChange(d.ops) ==> d.invalidate)
      && (EntriesFit(data, layout, Records(data, layout, RECORDS_START)) && d.invalidate ==> HasTextChange(d.ops))
  {
    var rs := Records(data, layout, RECORDS_START);
    RtsChanges(Effects(data, layout, rs, widen));
    ChangeImpliesInvalidates(data, layout, rs, widen);
    if EntriesFit(data, layout, rs) {
      InvalidatesImpliesChange(data, layout, rs, widen);
    }
  }

  /** Plain text reports exactly when it adds its entry. */
  lemma {:induction false} PlainChangeIffInvalidates(aToW: Text -> Text, start: int, stop: int, data: seq<Byte>)
    ensures var d := PlainDecoded(aToW, start, stop, data);
      HasTextChange(d.ops) <==> d.invalidate
  {
    var d := PlainDecoded(aToW, start, stop, data);
    if d.invalidate {
      assert IsTextChange(d.ops[0]);
    }
  }

  /** A payload of the major type `Subtitle` reports exactly when it changes the text. */
  lemma {:induction false} SubtitleChangeIffInvalidates(subtype: SubType, codecs: Codecs, start: int, stop: int, data: seq<Byte>)
    ensures var d := SubtitleDecoded(subtype, codecs, start, stop, data);
      HasTextChange(d.ops) <==> d.invalidate
  {
    var d := SubtitleDecoded(subtype, codecs, start, stop, data);
    if subtype == VobSub {
      assert d.ops == [AddVobSub(start, stop, data)];
      assert !IsTextChange(d.ops[0]);
    } else if d.invalidate {
      assert IsTextChange(d.ops[0]);
    } else {
      assert d.ops == [];
    }
  }

  /**
   * A GAB payload reports an invalidation exactly when one of its records
   * carries an entry tag (GAB1 tags 1 and 3, GAB2 tag 4), and what it
   * reports is the sample's start, not the entry's own time.
   */
  predicate HasEntryTag(layout: Layout, rs: seq<Record>)
  {
    exists k :: 0 <= k < |rs| && IsEntryTag(layout, rs[k].tag)
  }

  lemma {:induction false} GabReported(mt: MediaType, codecs: Codecs, s: Sample, layout: Layout)
    requires s.DataSample? && mt.major == TextMajor && HasMagic(s.data, layout)
    ensures HasEntryTag(layout, Records(s.data, layout, RECORDS_START)) ==> Reported(mt, codecs, s) == s.start
    ensures Reported(mt, codecs, s) != -1 ==> HasEntryTag(layout, Records(s.data, layout, RECORDS_START))
  {
    var rs := Records(s.data, layout, RECORDS_START);
    InvalidatesIff(layout, rs);
    if layout == Gab2 {
      assert !HasMagic(s.data, Gab1) by {
        assert s.data[..4][3] == s.data[3];
      }
    }
    assert Decode(mt, codecs, s) == GabDecoded(s.data, layout, codecs.widen);
    assert Decode(mt, codecs, s).invalidate == Invalidates(layout, rs);
    if Reported(mt, codecs, s) != -1 {
      assert Invalidates(layout, rs);
    }
  }

  /**
   * Plain text: one entry exactly when the payload has more than one byte,
   * does not start with a zero byte and is not all white space; the
   * decoder reports an invalidation exactly when it adds that entry.
   */
  lemma {:induction false} PlainTextEntry(mt: MediaType, codecs: Codecs, s: Sample)
    requires s.DataSample? && mt.major == TextMajor && !HasMagic(s.data, Gab1) && !HasMagic(s.data, Gab2)
    ensures var d := Decode(mt, codecs, s);
      && (|d.ops| > 0 <==> |s.data| > 1 && s.data[0] != 0 && !AllSpace(s.data[..NulIndex(s.data)]))
      && (d.invalidate <==> |d.ops| > 0)
      && (|d.ops| > 0 ==>
            d.ops == [Rts(AddEntry(codecs.widen.aToW(PlainLine(s.data)), false, TicksToMs(s.start), TicksToMs(s.stop)))])
  {
    if |s.data| > 1 && s.data[0] != 0 {
      NormalisedTrimEmpty(s.data);
    }
  }

  /**
   * An event line written out: the integers in decimal, the bottom margin
   * as its own field only when there are 10 fields.
   */
  function AssPieces(e: AssEntry, n: nat): (pieces: seq<Text>)
    requires n == 9 || n == 10
    ensures |pieces| == n
  {
    var m := e.margins;
    [Decimal(e.readOrder), Decimal(e.layer), e.style, e.actor, Decimal(m.left), Decimal(m.right), Decimal(m.top)]
      + (if n == 10 then [Decimal(m.bottom)] else [])
      + [e.effect, e.text]
  }

  /**
   * Reading the fields of a written event line gives back the entry; with
   * 9 fields the bottom margin is the vertical one.
   */
  lemma {:induction false} AssRoundTrip(e: AssEntry, n: nat)
    requires n == 9 || n == 10
    requires n == 9 ==> e.margins.bottom == e.margins.top
    ensures AssFields(AssPieces(e, n)) == e
  {
    var m := e.margins;
    WcstolOfDecimal(e.readOrder);
    WcstolOfDecimal(e.layer);
    WcstolOfDecimal(m.left);
    WcstolOfDecimal(m.right);
    WcstolOfDecimal(m.top);
    WcstolOfDecimal(m.bottom);
  }

  /**
   * A line that splits into exactly the pieces of an entry with text adds
   * that entry, timed in milliseconds, and reports; a line that splits into
   * another number of pieces adds nothing and reports nothing.
   */
  lemma {:induction false} AssLineSplit(subtype: SubType, explode: (Text, nat) -> seq<Text>, start: int, stop: int, line: Text, e: AssEntry)
    ensures var n := FieldCount(subtype);
      && (|explode(line, n)| != n ==> AssDecoded(subtype, explode, start, stop, line) == Nothing)
      && (explode(line, n) == AssPieces(e, n) && |e.text| > 0 && (n == 9 ==> e.margins.bottom == e.margins.top) ==>
            AssDecoded(subtype, explode, start, stop, line) == Decoded([AddAss(e, TicksToMs(start), TicksToMs(stop))], true))
  {
    var n := FieldCount(subtype);
    if n == 10 || e.margins.bottom == e.margins.top {
      AssRoundTrip(e, n);
    }
  }

  /** An SSA/ASS sample is decoded as its trimmed line, and not at all when that line is empty. */
  lemma {:induction false} AssSample(mt: MediaType, codecs: Codecs, s: Sample)
    requires s.DataSample? && |s.data| > 0 && mt.major == SubtitleMajor
    requires mt.subtype == Ssa || mt.subtype == Ass || mt.subtype == Ass2
    ensures var line := Trim(codecs.utf8To16(s.data));
      Decode(mt, codecs, s) == if |line| == 0 then Nothing else AssDecoded(mt.subtype, codecs.explode, s.start, s.stop, line)
  {
    assert Decode(mt, codecs, s) == SubtitleDecoded(mt.subtype, codecs, s.start, s.stop, s.data);
  }

  /** The nine fields `0,0,Default,,0,0,0,,Hello, world`: the text keeps its comma. */
  lemma {:induction false} AssExample()
    ensures var zero := Units("0");
      var pieces := [zero, zero, Units("Default"), [], zero, zero, zero, [], Units("Hello, world")];
      AssFields(pieces) == AssEntry(0, 0, Units("Default"), [], Margins(0, 0, 0, 0), [], Units("Hello, world"))
  {
    assert Decimal(0) == Units("0");
    WcstolOfDecimal(0);
  }

  // ---------------------------------------------------------------------
  // Worked examples

  /**
   * "GAB1", one skipped byte, a tag-2 record naming the track "en" in
   * UTF-16 and a tag-3 record with start 1000 ms, stop 2000 ms and the
   * UTF-16 line "Hi".
   */
  const GabSample: seq<Byte> :=
    [0x47, 0x41, 0x42, 0x31, 0,
     2, 0, 6, 0, 'e' as int, 0, 'n' as int, 0, 0, 0,
     3, 0, 14, 0, 0xE8, 0x03, 0, 0, 0xD0, 0x07, 0, 0, 'H' as int, 0, 'i' as int, 0, 0, 0]

  /** The sample holds two records, at 5 and at 15, and nothing after them. */
  lemma {:induction false} GabSampleRecords()
    ensures Records(GabSample, Gab1, RECORDS_START) == [Record(2, 6, 9), Record(3, 14, 19)]
  {
    assert Header(GabSample, Gab1, RECORDS_START) == Record(2, 6, 9) by {
      assert ReadWord(GabSample, 5) == 2 && ReadLe(GabSample, 7, 2) == 6;
    }
    GabSampleSecond();
  }

  /** The second record is the last one. */
  lemma {:induction false} GabSampleSecond()
    ensures Records(GabSample, Gab1, 15) == [Record(3, 14, 19)]
  {
    assert Header(GabSample, Gab1, 15) == Record(3, 14, 19) by {
      assert ReadWord(GabSample, 15) == 3 && ReadLe(GabSample, 17, 2) == 14;
    }
    assert Records(GabSample, Gab1, 33) == [];
  }

  /** The name the first record carries. */
  lemma {:induction false} GabSampleName()
    ensures WideString(GabSample, 9) == Units("en")
  {
    assert ReadWord(GabSample, 13) == 0;
    assert ReadWord(GabSample, 11) == 'n' as int;
    assert ReadWord(GabSample, 9) == 'e' as int;
    assert WideString(GabSample, 11) == ['n' as int];
    assert Units("en") == ['e' as int, 'n' as int];
  }

  /** The line the second record carries. */
  lemma {:induction false} GabSampleLine()
    ensures WideString(GabSample, 27) == Units("Hi")
  {
    assert ReadWord(GabSample, 31) == 0;
    assert ReadWord(GabSample, 29) == 'i' as int;
    assert ReadWord(GabSample, 27) == 'H' as int;
    assert WideString(GabSample, 29) == ['i' as int];
    assert Units("Hi") == ['H' as int, 'i' as int];
  }

  /** The times the second record carries, in milliseconds. */
  lemma {:induction false} GabSampleTimes()
    ensures ReadInt32(GabSample, 19) == 1000
    ensures ReadInt32(GabSample, 23) == 2000
  {
  }

  /** The track is named "en" and one Unicode entry from 1000 to 2000 ms is added. */
  lemma {:induction false} GabSampleDecoded(widen: Widen)
    ensures GabDecoded(GabSample, Gab1, widen)
         == Decoded([Rts(SetName(Units("en"))), Rts(AddEntry(Units("Hi"), true, 1000, 2000))], true)
  {
    GabSampleRecords();
    GabSampleName();
    GabSampleLine();
    GabSampleTimes();
    var rs := [Record(2, 6, 9), Record(3, 14, 19)];
    var aw := widen;
    assert rs[..1] == [Record(2, 6, 9)] && rs[..1][..0] == [];
    assert RecordEffect(GabSample, Gab1, rs[0], aw) == [SetName(Units("en"))];
    assert RecordEffect(GabSample, Gab1, rs[1], aw) == [AddEntry(Units("Hi"), true, 1000, 2000)];
    assert Effects(GabSample, Gab1, rs[..1], aw) == [SetName(Units("en"))];
    assert Effects(GabSample, Gab1, rs, aw) == [SetName(Units("en")), AddEntry(Units("Hi"), true, 1000, 2000)];
    assert Invalidates(Gab1, rs[..1]) == false;
    assert Invalidates(Gab1, rs);
  }

  /** The value reported is the sample's start, not the entry's 1000 ms. */
  lemma {:induction false} GabExample(mt: MediaType, codecs: Codecs, start: int, stop: int)
    requires mt.major == TextMajor
    ensures Decode(mt, codecs, DataSample(start, stop, GabSample))
         == Decoded([Rts(SetName(Units("en"))), Rts(AddEntry(Units("Hi"), true, 1000, 2000))], true)
    ensures Reported(mt, codecs, DataSample(start, stop, GabSample)) == start
  {
    assert HasMagic(GabSample, Gab1);
    GabSampleDecoded(codecs.widen);
  }

  const PlainSample: seq<Byte> := [CR, LF, 'H' as int, 'e' as int, 'l' as int, 'l' as int, 'o' as int, CR, LF]

  const Hello: Text := ['H' as int, 'e' as int, 'l' as int, 'l' as int, 'o' as int]

  /** Both CR LF pairs around "Hello" become LF. */
  lemma {:induction false} PlainSampleLf()
    ensures ReplaceCrLf(PlainSample) == [LF] + Hello + [LF]
  {
    assert ReplaceCrLf([CR, LF]) == [LF] by {
      assert [CR, LF][2..] == [];
    }
    ReplaceCrLfPrefix(Hello, [CR, LF]);
    assert PlainSample[2..] == Hello + [CR, LF];
  }

  /** Trimming drops the LF on either side. */
  lemma {:induction false} HelloTrim()
    ensures Trim([LF] + Hello + [LF]) == Hello
  {
    var line := [LF] + Hello + [LF];
    var kept := [LF] + Hello;
    NulIndexUnique(line, |line|);
    assert line[..|line|] == line;
    assert line[..|line| - 1] == kept;
    assert TrailingSpaces(kept) == 0;
    assert TrimRight(line) == kept;
    SpanOfPrefix([LF], Hello, IsSpace);
    assert kept[1..] == Hello;
  }

  /** CR LF at both ends of "Hello" is normalised to LF and then trimmed away. */
  lemma {:induction false} PlainSampleLine()
    ensures PlainLine(PlainSample) == Units("Hello")
  {
    PlainSampleLf();
    HelloTrim();
    HelloUnits();
  }

  lemma {:induction false} HelloUnits()
    ensures Units("Hello") == Hello
  {
    var u := Units("Hello");
    assert u[0] == 'H' as int && u[1] == 'e' as int && u[2] == 'l' as int;
    assert u[3] == 'l' as int && u[4] == 'o' as int;
  }

  /** The line becomes one narrow entry; 5000000 and 15000000 ticks are 500 and 1500 ms. */
  lemma {:induction false} PlainExample(mt: MediaType, codecs: Codecs)
    requires mt.major == TextMajor
    ensures Decode(mt, codecs, DataSample(5_000_000, 15_000_000, PlainSample))
         == Decoded([Rts(AddEntry(codecs.widen.aToW(Units("Hello")), false, 500, 1500))], true)
  {
    PlainSampleLine();
    assert PlainSample[..4][0] == CR;
    assert !HasMagic(PlainSample, Gab1) && !HasMagic(PlainSample, Gab2);
  }
}
