/**
 * decode: the loop that reads a 4-bit mode indicator, then a character count whose width the mode
 * and the symbol version fix, hands the segment to its decoder, and stops at the terminator.
 */
module Dispatcher {
  import opened Results
  import opened BitStream
  import opened Text
  import NumericSegment
  import AlphanumericSegment
  import ByteSegment
  import KanjiSegment
  import Encoding

  /**
   * What Mode.forBits makes of a 4-bit indicator: the terminator, one of the four text modes decode
   * handles, some other mode it knows but decode does not handle (such as ECI, FNC1 or structured append),
   * or NoMode when forBits has no mode for those bits and fails at once.
   */
  datatype Mode = Terminator | Numeric | Alphanumeric | Byte | Kanji | Other(indicator: nat) | NoMode
  {
    /** One of the four modes decode has a segment decoder for. */
    predicate IsText()
    {
      Numeric? || Alphanumeric? || Byte? || Kanji?
    }
  }

  /** A character-count width; the standard's widest is 16 bits. */
  type Width = w: nat | w <= 16

  /**
   * The collaborators decode consults: Mode.forBits, Mode.getCharacterCountBits for the symbol's
   * version, and the platform flag guessEncoding reads.
   */
  datatype Config = Config(forBits: nat -> Mode, countBits: Mode -> Width, assumeShiftJis: bool)

  /** The segment decoder decode calls for a text mode; any other mode is UnsupportedMode. */
  function SegmentSpec(data: seq<bool>, pos: nat, mode: Mode, count: nat, assumeShiftJis: bool): (r: Result<Decoded>)
    requires pos <= |data|
    ensures r.Ok? ==> pos <= r.value.next <= |data| && mode.IsText()
    ensures r.Err? && !mode.IsText() ==> r.error == UnsupportedMode
  {
    match mode
    case Numeric => NumericSegment.NumericSpec(data, pos, count)
    case Alphanumeric => AlphanumericSegment.AlphanumericSpec(data, pos, count)
    case Byte => ByteSegment.ByteSpec(data, pos, count, assumeShiftJis)
    case Kanji => KanjiSegment.KanjiSpec(data, pos, count)
    case _ => Err(UnsupportedMode)
  }

  /** Prefixing the text of a successful decode; an error passes through unchanged. */
  function PrependText(prefix: seq<Fragment>, r: Result<seq<Fragment>>): Result<seq<Fragment>>
  {
    match r
    case Ok(t) => Ok(prefix + t)
    case Err(e) => Err(e)
  }

  lemma PrependTextTwice(a: seq<Fragment>, b: seq<Fragment>, r: Result<seq<Fragment>>)
    ensures PrependText(a, PrependText(b, r)) == PrependText(a + b, r)
  {
    if r.Ok? {
      assert a + (b + r.value) == (a + b) + r.value;
    }
  }

  lemma PrependTextNothing(r: Result<seq<Fragment>>)
    ensures PrependText([], r) == r
  {
    if r.Ok? {
      assert [] + r.value == r.value;
    }
  }

  /**
   * What decode returns for the bits from pos on: the text of every segment up to the first
   * terminator, or the first error. The count is read before an unhandled mode is rejected, as
   * decode does; a mode forBits does not know fails before any count is read.
   */
  function DecodeSpec(data: seq<bool>, pos: nat, cfg: Config): Result<seq<Fragment>>
    requires pos <= |data|
    decreases |data| - pos
  {
    match Read(data, pos, 4)
    case Err(e) => Err(e)
    case Ok(indicator) =>
      var mode := cfg.forBits(indicator);
      if mode == Terminator then Ok([])
      else if mode == NoMode then Err(UnsupportedMode)
      else
        var width := cfg.countBits(mode);
        match Read(data, pos + 4, width)
        case Err(e) => Err(e)
        case Ok(count) =>
          match SegmentSpec(data, pos + 4 + width, mode, count, cfg.assumeShiftJis)
          case Err(e) => Err(e)
          case Ok(segment) => PrependText(segment.out, DecodeSpec(data, segment.next, cfg))
  }

  /**
   * One turn of decode's loop, on the specification: once the indicator and the count are read, the
   * segment either fails the whole decode with its error, or its text joins the text decoded so far
   * (done), ahead of whatever the rest of the stream decodes to.
   */
  lemma DecodeStep(data: seq<bool>, pos: nat, cfg: Config, indicator: nat, count: nat, done: seq<Fragment>)
    requires pos <= |data| && Read(data, pos, 4) == Ok(indicator)
    requires cfg.forBits(indicator) != Terminator && cfg.forBits(indicator) != NoMode
    requires Read(data, pos + 4, cfg.countBits(cfg.forBits(indicator))) == Ok(count)
    ensures var mode := cfg.forBits(indicator);
      var r := SegmentSpec(data, pos + 4 + cfg.countBits(mode), mode, count, cfg.assumeShiftJis);
      && (r.Err? ==> PrependText(done, DecodeSpec(data, pos, cfg)) == Err(r.error))
      && (r.Ok? ==> PrependText(done, DecodeSpec(data, pos, cfg))
                    == PrependText(done + r.value.out, DecodeSpec(data, r.value.next, cfg)))
  {
    var mode := cfg.forBits(indicator);
    var r := SegmentSpec(data, pos + 4 + cfg.countBits(mode), mode, count, cfg.assumeShiftJis);
    if r.Ok? {
      PrependTextTwice(done, r.value.out, DecodeSpec(data, r.value.next, cfg));
    }
  }

  /** A terminator ends the decode with no further text, whatever bits follow it. */
  lemma TerminatorStops(data: seq<bool>, pos: nat, cfg: Config)
    requires pos + 4 <= |data| && cfg.forBits(BitsValue(data, pos, 4)) == Terminator
    ensures DecodeSpec(data, pos, cfg) == Ok([])
  {
  }

  /** Fewer than four bits left where an indicator is due is NotEnoughBits. */
  lemma ShortStreamFails(data: seq<bool>, pos: nat, cfg: Config)
    requires pos <= |data| < pos + 4
    ensures DecodeSpec(data, pos, cfg) == Err(NotEnoughBits)
  {
  }

  /** A count field cut short by the end of the stream is NotEnoughBits. */
  lemma ShortCountFails(data: seq<bool>, pos: nat, cfg: Config)
    requires pos + 4 <= |data|
    requires var mode := cfg.forBits(BitsValue(data, pos, 4));
      mode != Terminator && mode != NoMode && |data| < pos + 4 + cfg.countBits(mode)
    ensures DecodeSpec(data, pos, cfg) == Err(NotEnoughBits)
  {
  }

  /**
   * Every mode other than the four text modes and the terminator fails with UnsupportedMode: at once
   * when forBits knows no mode, and after the count is read for a mode it knows.
   */
  lemma UnsupportedModeFails(data: seq<bool>, pos: nat, cfg: Config)
    requires pos + 4 <= |data|
    requires var mode := cfg.forBits(BitsValue(data, pos, 4));
      mode == NoMode || (mode.Other? && pos + 4 + cfg.countBits(mode) <= |data|)
    ensures DecodeSpec(data, pos, cfg) == Err(UnsupportedMode)
  {
  }

  /**
   * A stream whose first byte has a zero high nibble, where the zero indicator is the terminator,
   * decodes to no text at all; in particular so does any non-empty array of zero bytes.
   */
  lemma {:induction false} ZeroIndicatorIsEmpty(bytes: seq<Byte>, cfg: Config)
    requires |bytes| > 0 && bytes[0] < 0x10 && cfg.forBits(0) == Terminator
    ensures DecodeSpec(BytesToBits(bytes), 0, cfg) == Ok([])
  {
    var data := BytesToBits(bytes);
    Pow2Widths();
    BytesToBitsAt(bytes, 0);
    BitsValueOfToBits(data, 0, bytes[0], 8);
    BitsValueGrows(data, 0, 4);
    BitsValueGrows(data, 0, 5);
    BitsValueGrows(data, 0, 6);
    BitsValueGrows(data, 0, 7);
    assert BitsValue(data, 0, 4) == 0;
    TerminatorStops(data, 0, cfg);
  }

  /** The switch in decode's loop: hands the segment to the decoder for its mode, and rejects any other mode. */
  method DecodeSegment(bits: BitSource, result: TextBuffer, mode: Mode, count: nat, assumeShiftJis: bool)
    returns (outcome: Outcome)
    requires bits.Valid()
    modifies bits, result
    ensures bits.Valid()
    ensures match SegmentSpec(bits.data, old(bits.offset), mode, count, assumeShiftJis)
      case Ok(d) => outcome == Pass && bits.offset == d.next && result.fragments == old(result.fragments) + d.out
      case Err(e) => outcome == Fail(e)
  {
    if mode == Numeric {
      outcome := NumericSegment.DecodeNumericSegment(bits, result, count);
    } else if mode == Alphanumeric {
      outcome := AlphanumericSegment.DecodeAlphanumericSegment(bits, result, count);
    } else if mode == Byte {
      outcome := ByteSegment.DecodeByteSegment(bits, result, count, assumeShiftJis);
    } else if mode == Kanji {
      outcome := KanjiSegment.DecodeKanjiSegment(bits, result, count);
    } else {
      outcome := Fail(UnsupportedMode);
    }
  }

  /**
   * One turn of decode's loop: reads the mode indicator and, unless it is the terminator, the count
   * and the segment. Against the specification, the text so far followed by what the stream decodes
   * to from here is unchanged by the turn: it fails with the turn's error, or ends with the text so
   * far at the terminator, or is the text so far, now longer, followed by what the stream decodes to
   * from the advanced cursor.
   */
  method DecodeTurn(bits: BitSource, result: TextBuffer, cfg: Config) returns (mode: Mode, outcome: Outcome)
    requires bits.Valid()
    modifies bits, result
    ensures bits.Valid()
    ensures var before := PrependText(old(result.fragments), DecodeSpec(bits.data, old(bits.offset), cfg));
      match outcome
      case Fail(e) => before == Err(e)
      case Pass =>
        if mode == Terminator then before == Ok(result.fragments)
        else old(bits.offset) < bits.offset && before == PrependText(result.fragments, DecodeSpec(bits.data, bits.offset, cfg))
  {
    ghost var p := bits.offset;
    ghost var done := result.fragments;
    var indicator := bits.ReadBits(4);
    if indicator.Err? {
      ShortStreamFails(bits.data, p, cfg);
      return NoMode, Fail(indicator.error);
    }
    mode := cfg.forBits(indicator.value);
    if mode != Terminator {
      if mode == NoMode {
        UnsupportedModeFails(bits.data, p, cfg);
        return mode, Fail(UnsupportedMode);
      }
      var width := cfg.countBits(mode);
      var countRead := bits.ReadBits(width);
      if countRead.Err? {
        ShortCountFails(bits.data, p, cfg);
        return mode, Fail(countRead.error);
      }
      var count := countRead.value;
      DecodeStep(bits.data, p, cfg, indicator.value, count, done);
      outcome := DecodeSegment(bits, result, mode, count, cfg.assumeShiftJis);
    } else {
      TerminatorStops(bits.data, p, cfg);
      assert done + [] == done;
      outcome := Pass;
    }
  }

  /**
   * decode: reads segment after segment into one buffer until the terminator, and returns the
   * buffer's text; the first failing read or segment ends it with that error.
   */
  method Decode(bytes: array<Byte>, cfg: Config) returns (r: Result<seq<Fragment>>)
    ensures r == DecodeSpec(BytesToBits(bytes[..]), 0, cfg)
  {
    var bits := new BitSource(bytes[..]);
    var result := new TextBuffer();
    ghost var spec := DecodeSpec(bits.data, 0, cfg);
    PrependTextNothing(spec);
    var mode: Mode;
    while true
      invariant bits.Valid() && fresh(bits) && fresh(result)
      invariant bits.data == BytesToBits(bytes[..])
      invariant spec == PrependText(result.fragments, DecodeSpec(bits.data, bits.offset, cfg))
      decreases |bits.data| - bits.offset
    {
      var outcome;
      mode, outcome := DecodeTurn(bits, result, cfg);
      if outcome.Fail? {
        return Err(outcome.error);
      }
      if mode == Terminator {
        break;
      }
    }
    return Ok(result.fragments);
  }

  // ---- One-segment streams ----

  /**
   * data is a one-segment stream: the indicator in 4 bits, the count in width bits, the segment's
   * payload, then the closing indicator in 4 bits, end to end.
   */
  ghost predicate OneSegment(data: seq<bool>, indicator: nat, count: nat, width: nat, payload: seq<bool>, stop: nat)
  {
    && |data| == 4 + width + |payload| + 4
    && data[0 .. 4] == ToBits(indicator, 4)
    && data[4 .. 4 + width] == ToBits(count, width)
    && data[4 + width .. 4 + width + |payload|] == payload
    && data[4 + width + |payload| .. |data|] == ToBits(stop, 4)
  }

  /** The four fields written one after another form exactly such a stream. */
  lemma OneSegmentOfFields(indicator: nat, count: nat, width: nat, payload: seq<bool>, stop: nat)
    ensures var data := ToBits(indicator, 4) + ToBits(count, width) + payload + ToBits(stop, 4);
      OneSegment(data, indicator, count, width, payload, stop)
  {
    var data := ToBits(indicator, 4) + ToBits(count, width) + payload + ToBits(stop, 4);
    FourParts(data, ToBits(indicator, 4), ToBits(count, width), payload, ToBits(stop, 4));
  }

  /** In a one-segment stream the indicator, the count and the closing indicator read back. */
  lemma FieldReads(data: seq<bool>, indicator: nat, count: nat, width: nat, payload: seq<bool>, stop: nat)
    requires indicator < 16 && stop < 16 && count < Pow2(width)
    requires OneSegment(data, indicator, count, width, payload, stop)
    ensures Read(data, 0, 4) == Ok(indicator) && Read(data, 4, width) == Ok(count)
    ensures Read(data, 4 + width + |payload|, 4) == Ok(stop)
  {
    assert Pow2(4) == 16;
    ReadSlice(data, 0, indicator, 4);
    ReadSlice(data, 4, count, width);
    ReadSlice(data, 4 + width + |payload|, stop, 4);
  }

  /**
   * A stream holding one segment followed by a terminator: an indicator for a mode decode
   * dispatches on, its count, a segment the decoder reads back as out, then the terminator's
   * indicator. It decodes to out.
   */
  lemma SingleSegmentStream(data: seq<bool>, cfg: Config, indicator: nat, mode: Mode, count: nat,
                            out: seq<Fragment>, next: nat)
    requires mode == cfg.forBits(indicator) && mode != Terminator && mode != NoMode
    requires Read(data, 0, 4) == Ok(indicator) && Read(data, 4, cfg.countBits(mode)) == Ok(count)
    requires Yields(SegmentSpec(data, 4 + cfg.countBits(mode), mode, count, cfg.assumeShiftJis), out, next)
    requires Read(data, next, 4).Ok? && cfg.forBits(Read(data, next, 4).value) == Terminator
    ensures DecodeSpec(data, 0, cfg) == Ok(out)
  {
    DecodeThrough(data, 0, cfg, indicator, mode, cfg.countBits(mode), count, Decoded(out, next));
    TerminatorStops(data, next, cfg);
    assert out + [] == out;
  }

  /** A one-segment stream whose payload the segment decoder reads back as out decodes to out. */
  lemma OneSegmentStream(data: seq<bool>, cfg: Config, indicator: nat, mode: Mode, count: nat, payload: seq<bool>,
                         stop: nat, out: seq<Fragment>)
    requires mode == cfg.forBits(indicator) && mode != Terminator && mode != NoMode && cfg.forBits(stop) == Terminator
    requires indicator < 16 && stop < 16 && count < Pow2(cfg.countBits(mode))
    requires OneSegment(data, indicator, count, cfg.countBits(mode), payload, stop)
    requires var at := 4 + cfg.countBits(mode);
      Yields(SegmentSpec(data, at, mode, count, cfg.assumeShiftJis), out, at + |payload|)
    ensures DecodeSpec(data, 0, cfg) == Ok(out)
  {
    var width := cfg.countBits(mode);
    FieldReads(data, indicator, count, width, payload, stop);
    SingleSegmentStream(data, cfg, indicator, mode, count, out, 4 + width + |payload|);
  }

  /** A numeric segment of any digit string, then a terminator, decodes to those digits. */
  lemma NumericStream(cfg: Config, indicator: nat, stop: nat, ds: seq<Digit>, data: seq<bool>)
    requires indicator < 16 && stop < 16 && cfg.forBits(indicator) == Numeric && cfg.forBits(stop) == Terminator
    requires |ds| < Pow2(cfg.countBits(Numeric))
    requires OneSegment(data, indicator, |ds|, cfg.countBits(Numeric), NumericSegment.EncodeNumeric(ds), stop)
    ensures DecodeSpec(data, 0, cfg) == Ok(NumericSegment.DigitText(ds))
  {
    var width: nat := cfg.countBits(Numeric);
    var payload := NumericSegment.EncodeNumeric(ds);
    NumericSegment.NumericRoundTrip(data, 4 + width, ds);
    OneSegmentStream(data, cfg, indicator, Numeric, |ds|, payload, stop, NumericSegment.DigitText(ds));
  }

  /** An alphanumeric segment of any string of table indices, then a terminator, decodes to its characters. */
  lemma AlphanumericStream(cfg: Config, indicator: nat, stop: nat, xs: seq<Index>, data: seq<bool>)
    requires indicator < 16 && stop < 16 && cfg.forBits(indicator) == Alphanumeric && cfg.forBits(stop) == Terminator
    requires |xs| < Pow2(cfg.countBits(Alphanumeric))
    requires OneSegment(data, indicator, |xs|, cfg.countBits(Alphanumeric), AlphanumericSegment.EncodeAlphanumeric(xs), stop)
    ensures DecodeSpec(data, 0, cfg) == Ok(AlphanumericSegment.SymbolText(xs))
  {
    var width: nat := cfg.countBits(Alphanumeric);
    var payload := AlphanumericSegment.EncodeAlphanumeric(xs);
    AlphanumericSegment.AlphanumericRoundTrip(data, 4 + width, xs);
    OneSegmentStream(data, cfg, indicator, Alphanumeric, |xs|, payload, stop, AlphanumericSegment.SymbolText(xs));
  }

  /** A byte segment of any byte string, then a terminator, decodes to those bytes with their guessed charset. */
  lemma ByteStream(cfg: Config, indicator: nat, stop: nat, bs: seq<Byte>, data: seq<bool>)
    requires indicator < 16 && stop < 16 && cfg.forBits(indicator) == Byte && cfg.forBits(stop) == Terminator
    requires |bs| < Pow2(cfg.countBits(Byte))
    requires OneSegment(data, indicator, |bs|, cfg.countBits(Byte), BytesToBits(bs), stop)
    ensures DecodeSpec(data, 0, cfg) == Ok([Encoded(Encoding.GuessSpec(bs, cfg.assumeShiftJis), bs)])
  {
    var width: nat := cfg.countBits(Byte);
    var payload := BytesToBits(bs);
    ByteSegment.ByteRoundTrip(data, 4 + width, bs, cfg.assumeShiftJis);
    OneSegmentStream(data, cfg, indicator, Byte, |bs|, payload, stop, [Encoded(Encoding.GuessSpec(bs, cfg.assumeShiftJis), bs)]);
  }

  /** The Kanji round trip, as the dispatcher's segment decoder sees it. */
  lemma KanjiSegmentYields(data: seq<bool>, at: nat, bs: seq<Byte>, assumeShiftJis: bool)
    requires KanjiSegment.KanjiText(bs) && at + |KanjiSegment.EncodeKanji(bs)| <= |data|
    requires data[at .. at + |KanjiSegment.EncodeKanji(bs)|] == KanjiSegment.EncodeKanji(bs)
    ensures Yields(SegmentSpec(data, at, Kanji, |bs| / 2, assumeShiftJis), [Encoded(ShiftJIS, bs)],
                   at + |KanjiSegment.EncodeKanji(bs)|)
  {
    KanjiSegment.KanjiRoundTrip(data, at, bs);
  }

  /** A Kanji segment packing any byte pairs Kanji mode produces, then a terminator, decodes to those bytes. */
  lemma KanjiStream(cfg: Config, indicator: nat, stop: nat, bs: seq<Byte>, data: seq<bool>)
    requires indicator < 16 && stop < 16 && cfg.forBits(indicator) == Kanji && cfg.forBits(stop) == Terminator
    requires KanjiSegment.KanjiText(bs) && |bs| / 2 < Pow2(cfg.countBits(Kanji))
    requires OneSegment(data, indicator, |bs| / 2, cfg.countBits(Kanji), KanjiSegment.EncodeKanji(bs), stop)
    ensures DecodeSpec(data, 0, cfg) == Ok([Encoded(ShiftJIS, bs)])
  {
    var width: nat := cfg.countBits(Kanji);
    var payload := KanjiSegment.EncodeKanji(bs);
    KanjiSegmentYields(data, 4 + width, bs, cfg.assumeShiftJis);
    OneSegmentStream(data, cfg, indicator, Kanji, |bs| / 2, payload, stop, [Encoded(ShiftJIS, bs)]);
  }

  // ---- Trailing bits ----

  /** A segment's decode depends only on the bits up to where it stops. */
  lemma SegmentAgrees(d1: seq<bool>, d2: seq<bool>, pos: nat, mode: Mode, count: nat, assumeShiftJis: bool)
    requires pos <= |d1| && SegmentSpec(d1, pos, mode, count, assumeShiftJis).Ok?
    requires Agree(d1, d2, SegmentSpec(d1, pos, mode, count, assumeShiftJis).value.next)
    ensures pos <= |d2| && SegmentSpec(d2, pos, mode, count, assumeShiftJis) == SegmentSpec(d1, pos, mode, count, assumeShiftJis)
  {
    match mode
    case Numeric => NumericSegment.NumericAgrees(d1, d2, pos, count);
    case Alphanumeric => AlphanumericSegment.AlphanumericAgrees(d1, d2, pos, count);
    case Byte => ByteSegment.ByteAgrees(d1, d2, pos, count, assumeShiftJis);
    case Kanji => KanjiSegment.KanjiAgrees(d1, d2, pos, count);
  }

  /** A segment that decodes is followed by the decode of the rest of the stream. */
  lemma DecodeThrough(data: seq<bool>, pos: nat, cfg: Config, indicator: nat, mode: Mode, width: nat, count: nat,
                      segment: Decoded)
    requires pos <= |data| && Read(data, pos, 4) == Ok(indicator)
    requires mode == cfg.forBits(indicator) && mode != Terminator && mode != NoMode && width == cfg.countBits(mode)
    requires Read(data, pos + 4, width) == Ok(count)
    requires SegmentSpec(data, pos + 4 + width, mode, count, cfg.assumeShiftJis) == Ok(segment)
    ensures DecodeSpec(data, pos, cfg) == PrependText(segment.out, DecodeSpec(data, segment.next, cfg))
  {
  }

  /**
   * A successful decode either stops at a terminator, or reads a count and a segment and carries on
   * successfully from where the segment stops.
   */
  lemma DecodeOkStep(data: seq<bool>, pos: nat, cfg: Config) returns (stop: bool, count: nat, segment: Decoded)
    requires pos <= |data| && DecodeSpec(data, pos, cfg).Ok?
    ensures pos + 4 <= |data| && Read(data, pos, 4) == Ok(BitsValue(data, pos, 4))
    ensures var mode := cfg.forBits(BitsValue(data, pos, 4));
      && (stop <==> mode == Terminator)
      && (!stop ==>
        && mode != NoMode
        && Read(data, pos + 4, cfg.countBits(mode)) == Ok(count)
        && SegmentSpec(data, pos + 4 + cfg.countBits(mode), mode, count, cfg.assumeShiftJis) == Ok(segment)
        && pos + 4 <= segment.next <= |data|
        && DecodeSpec(data, segment.next, cfg).Ok?
        && DecodeSpec(data, pos, cfg) == PrependText(segment.out, DecodeSpec(data, segment.next, cfg)))
  {
    var indicator := Read(data, pos, 4).value;
    var mode := cfg.forBits(indicator);
    stop, count, segment := mode == Terminator, 0, Decoded([], pos);
    if !stop {
      count := Read(data, pos + 4, cfg.countBits(mode)).value;
      segment := SegmentSpec(data, pos + 4 + cfg.countBits(mode), mode, count, cfg.assumeShiftJis).value;
    }
  }

  /** A segment read from a prefix of the stream is read the same way from the whole stream. */
  lemma PrefixStep(data: seq<bool>, longer: seq<bool>, pos: nat, cfg: Config, count: nat, segment: Decoded)
    requires pos + 4 <= |data| && Agree(data, longer, |data|)
    requires var mode := cfg.forBits(BitsValue(data, pos, 4));
      && mode != Terminator && mode != NoMode
      && Read(data, pos + 4, cfg.countBits(mode)) == Ok(count)
      && SegmentSpec(data, pos + 4 + cfg.countBits(mode), mode, count, cfg.assumeShiftJis) == Ok(segment)
    ensures segment.next <= |data|
    ensures DecodeSpec(longer, pos, cfg) == PrependText(segment.out, DecodeSpec(longer, segment.next, cfg))
  {
    var indicator := BitsValue(data, pos, 4);
    var mode := cfg.forBits(indicator);
    var width := cfg.countBits(mode);
    ReadAgrees(data, longer, |data|, pos, 4);
    ReadAgrees(data, longer, |data|, pos + 4, width);
    AgreeShrink(data, longer, |data|, segment.next);
    SegmentAgrees(data, longer, pos + 4 + width, mode, count, cfg.assumeShiftJis);
    DecodeThrough(longer, pos, cfg, indicator, mode, width, count, segment);
  }

  /** A stream that decodes successfully decodes to the same text inside any stream it is a prefix of. */
  lemma {:induction false} PrefixDecodes(data: seq<bool>, longer: seq<bool>, pos: nat, cfg: Config)
    requires pos <= |data| && DecodeSpec(data, pos, cfg).Ok? && Agree(data, longer, |data|)
    ensures DecodeSpec(longer, pos, cfg) == DecodeSpec(data, pos, cfg)
    decreases |data| - pos
  {
    var stop, count, segment := DecodeOkStep(data, pos, cfg);
    if stop {
      ReadAgrees(data, longer, |data|, pos, 4);
      TerminatorStops(data, pos, cfg);
      TerminatorStops(longer, pos, cfg);
    } else {
      PrefixStep(data, longer, pos, cfg, count, segment);
      PrefixDecodes(data, longer, segment.next, cfg);
    }
  }

  /**
   * Bits after the terminator are never looked at: a stream that decodes successfully decodes to the
   * same text with anything appended. (The check for excess bits after the terminator is disabled
   * in the source.)
   */
  lemma TrailingBitsIgnored(data: seq<bool>, extra: seq<bool>, cfg: Config)
    requires DecodeSpec(data, 0, cfg).Ok?
    ensures DecodeSpec(data + extra, 0, cfg) == DecodeSpec(data, 0, cfg)
  {
    var longer := data + extra;
    assert longer[..|data|] == data;
    PrefixDecodes(data, longer, 0, cfg);
  }
}
