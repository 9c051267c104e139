/** decodeKanjiSegment: 13-bit units mapped back to two Shift_JIS bytes each (ISO/IEC 18004:2006 section 6.4.6). */
module KanjiSegment {
  import opened Results
  import opened BitStream
  import opened Text

  /** Java's | on non-negative ints: bit by bit, a bit of the result is set where either operand's is. */
  function BitOr(a: nat, b: nat): nat
    decreases a + b
  {
    if a == 0 && b == 0 then 0
    else 2 * BitOr(a / 2, b / 2) + (if a % 2 == 1 || b % 2 == 1 then 1 else 0)
  }

  /** Java's << on a non-negative int whose result stays below 2^31. */
  function ShiftLeft(a: nat, n: nat): nat
  {
    a * Pow2(n)
  }

  lemma {:induction false} OrZero(a: nat)
    ensures BitOr(a, 0) == a
    decreases a
  {
    if a != 0 {
      OrZero(a / 2);
    }
  }

  /** Or-ing a value below 2^n into a value shifted left by n bits adds it. */
  lemma {:induction false} OrBelowShift(a: nat, n: nat, r: nat)
    requires r < Pow2(n)
    ensures BitOr(ShiftLeft(a, n), r) == ShiftLeft(a, n) + r
    decreases n
  {
    if n > 0 {
      var s := a * Pow2(n);
      assert s == 2 * (a * Pow2(n - 1));
      assert s / 2 == a * Pow2(n - 1) && s % 2 == 0;
      OrBelowShift(a, n - 1, r / 2);
      if s != 0 || r != 0 {
        assert BitOr(s, r) == 2 * BitOr(s / 2, r / 2) + r % 2;
      }
    } else {
      OrZero(a);
    }
  }

  /** The assembled value of a unit v: its row number v / 0xC0 in the high byte, its column v % 0xC0 in the low byte. */
  function Assembled(v: nat): nat
    requires v < 0x2000
  {
    (v / 0xC0) * 0x100 + v % 0xC0
  }

  /** The source assembles it as ((v / 0xC0) << 8) | (v % 0xC0); the column is below 0x100, so the or adds. */
  lemma ShiftOrIsAssembled(v: nat)
    requires v < 0x2000
    ensures BitOr(ShiftLeft(v / 0xC0, 8), v % 0xC0) == Assembled(v)
  {
    Pow2Widths();
    OrBelowShift(v / 0xC0, 8, v % 0xC0);
  }

  /**
   * The two bytes decodeKanjiSegment stores for a unit v: the assembled value moved up by 0x8140
   * when it is below 0x1F00 and by 0xC140 otherwise, then its byte above the lowest eight bits and
   * its lowest eight bits (the (byte) casts keep the low eight bits of each).
   */
  function KanjiUnit(v: nat): (u: seq<Byte>)
    requires v < 0x2000
    ensures |u| == 2
  {
    var a := Assembled(v);
    var shifted := if a < 0x1F00 then a + 0x8140 else a + 0xC140;
    [(shifted / 0x100) % 0x100, shifted % 0x100]
  }

  /**
   * The byte layout of a unit: the low byte is v % 0xC0 + 0x40, in 0x40..0xFF, with no carry into the
   * high byte; the high byte is v / 0xC0 + 0x81, in 0x81..0x9F, below the 0x1F00 boundary, and
   * v / 0xC0 + 0xC1, in 0xE0..0xEB, above it.
   */
  lemma KanjiUnitLayout(v: nat)
    requires v < 0x2000
    ensures var u := KanjiUnit(v);
      && u[1] == v % 0xC0 + 0x40 && 0x40 <= u[1] <= 0xFF
      && (Assembled(v) < 0x1F00 ==> u[0] == v / 0xC0 + 0x81 && 0x81 <= u[0] <= 0x9F)
      && (Assembled(v) >= 0x1F00 ==> u[0] == v / 0xC0 + 0xC1 && 0xE0 <= u[0] <= 0xEB)
  {
    var q, r := v / 0xC0, v % 0xC0;
    assert q <= 42;
    var a := Assembled(v);
    if a < 0x1F00 {
      assert a + 0x8140 == (q + 0x81) * 0x100 + (r + 0x40);
    } else {
      assert a + 0xC140 == (q + 0xC1) * 0x100 + (r + 0x40);
    }
  }

  /**
   * The byte pairs Kanji mode produces: a high byte in 0x81..0x9F or 0xE0..0xEB and a low byte of at
   * least 0x40, up to 0xEBBF. This is slightly wider than Shift_JIS itself, which rejects the trail
   * bytes 0x7F and 0xFD..0xFF; the decoder stores such pairs all the same.
   */
  predicate KanjiPair(hi: Byte, lo: Byte)
  {
    && 0x40 <= lo
    && (0x81 <= hi <= 0x9F || 0xE0 <= hi <= 0xEA || (hi == 0xEB && lo <= 0xBF))
  }

  /**
   * The 13-bit unit of a byte pair, as a Kanji encoder computes it: subtract 0x8140 (first range) or
   * 0xC140 (second range), then the high byte of the difference times 0xC0 plus its low byte.
   */
  function KanjiEncode(hi: Byte, lo: Byte): nat
    requires KanjiPair(hi, lo)
  {
    var d := hi as int * 0x100 + lo - (if hi <= 0x9F then 0x8140 else 0xC140);
    (d / 0x100) * 0xC0 + d % 0x100
  }

  /** Every unit maps to a byte pair in range, and encoding that pair gives the unit back. */
  lemma KanjiUnitEncodes(v: nat)
    requires v < 0x2000
    ensures KanjiPair(KanjiUnit(v)[0], KanjiUnit(v)[1]) && KanjiEncode(KanjiUnit(v)[0], KanjiUnit(v)[1]) == v
  {
    KanjiUnitLayout(v);
    var u := KanjiUnit(v);
    var q, r := v / 0xC0, v % 0xC0;
    assert v == q * 0xC0 + r;
    if Assembled(v) < 0x1F00 {
      assert u[0] as int * 0x100 + u[1] - 0x8140 == q * 0x100 + r;
    } else {
      assert q >= 31;
      assert u[0] as int * 0x100 + u[1] - 0xC140 == q * 0x100 + r;
      if u[0] == 0xEB {
        assert q == 42 && r <= 0x7F;
      }
    }
  }

  /** Dividing q * 0xC0 + r by 0xC0, for a column r below 0xC0, gives back q and r. */
  lemma DivModColumns(v: nat, q: nat, r: nat)
    requires v == q * 0xC0 + r && r < 0xC0
    ensures v / 0xC0 == q && v % 0xC0 == r
  {
  }

  /** Dividing q * 0x100 + r by 0x100, for a low byte r, gives back q and r. */
  lemma DivModBytes(v: nat, q: nat, r: nat)
    requires v == q * 0x100 + r && r < 0x100
    ensures v / 0x100 == q && v % 0x100 == r
  {
  }

  /** The unit of a pair in range is its row, counted from 0x81 or 0xC1, times 0xC0 plus its column lo - 0x40. */
  lemma KanjiEncodeRowColumn(hi: Byte, lo: Byte)
    requires KanjiPair(hi, lo)
    ensures var q := hi - (if hi <= 0x9F then 0x81 else 0xC1);
      0 <= q <= 42 && (hi <= 0x9F <==> q < 31) && KanjiEncode(hi, lo) == q * 0xC0 + (lo - 0x40)
  {
    var base := if hi <= 0x9F then 0x81 else 0xC1;
    var q, r := hi - base, lo - 0x40;
    assert hi as int * 0x100 + lo - base * 0x100 - 0x40 == q * 0x100 + r;
    DivModBytes(hi as int * 0x100 + lo - base * 0x100 - 0x40, q, r);
  }

  /** Every byte pair in range is encoded by a 13-bit unit, and that unit decodes to the pair. */
  lemma KanjiPairDecodes(hi: Byte, lo: Byte)
    requires KanjiPair(hi, lo)
    ensures KanjiEncode(hi, lo) < 0x2000 && KanjiUnit(KanjiEncode(hi, lo)) == [hi, lo]
  {
    KanjiEncodeRowColumn(hi, lo);
    var q := hi - (if hi <= 0x9F then 0x81 else 0xC1);
    var v := KanjiEncode(hi, lo);
    DivModColumns(v, q, lo - 0x40);
    KanjiUnitLayout(v);
  }

  /** The two bytes of the unit k units past bit position pos. */
  function UnitAt(data: seq<bool>, pos: nat, k: nat): (u: seq<Byte>)
    requires pos + 13 * k + 13 <= |data|
    ensures |u| == 2
  {
    Pow2Widths();
    KanjiUnit(BitsValue(data, pos + 13 * k, 13))
  }

  /** A byte pair. */
  type Pair = u: seq<Byte> | |u| == 2 witness [0, 0]

  /** The pairs of count units read from bit position pos, in read order. */
  function Units(data: seq<bool>, pos: nat, count: nat): (us: seq<Pair>)
    requires pos + 13 * count <= |data|
    ensures |us| == count && forall k :: 0 <= k < count ==> us[k] == UnitAt(data, pos, k)
  {
    seq(count, k requires 0 <= k < count => UnitAt(data, pos, k))
  }

  /** Pairs laid end to end. */
  function Flatten(us: seq<Pair>): (bs: seq<Byte>)
    ensures |bs| == 2 * |us|
  {
    if |us| == 0 then [] else us[0] + Flatten(us[1..])
  }

  /** The 2 * count bytes decodeKanjiSegment fills its buffer with: unit by unit, in read order. */
  function KanjiBytes(data: seq<bool>, pos: nat, count: nat): (bs: seq<Byte>)
    requires pos + 13 * count <= |data|
    ensures |bs| == 2 * count
  {
    Flatten(Units(data, pos, count))
  }

  /**
   * What decodeKanjiSegment appends for count units read from bit position pos, and where it leaves
   * the cursor: NotEnoughBits when fewer than 13 * count bits remain (some read of a unit fails),
   * otherwise the buffer as one piece tagged Shift_JIS.
   */
  function KanjiSpec(data: seq<bool>, pos: nat, count: nat): (r: Result<Decoded>)
    requires pos <= |data|
    ensures r.Ok? ==> pos <= r.value.next <= |data|
  {
    if pos + 13 * count <= |data| then Ok(Decoded([Encoded(ShiftJIS, KanjiBytes(data, pos, count))], pos + 13 * count))
    else Err(NotEnoughBits)
  }

  lemma UnitAtShift(data: seq<bool>, pos: nat, k: nat)
    requires pos + 13 * k + 26 <= |data|
    ensures UnitAt(data, pos + 13, k) == UnitAt(data, pos, k + 1)
  {
    assert pos + 13 + 13 * k == pos + 13 * (k + 1);
  }

  /** Bytes 2k and 2k + 1 of flattened pairs are the two bytes of pair k. */
  lemma {:induction false} FlattenAt(us: seq<Pair>, k: nat)
    requires k < |us|
    ensures Flatten(us)[2 * k] == us[k][0] && Flatten(us)[2 * k + 1] == us[k][1]
    decreases k
  {
    var head, rest := us[0], Flatten(us[1..]);
    assert Flatten(us) == head + rest;
    if k > 0 {
      FlattenAt(us[1..], k - 1);
      assert Flatten(us)[2 * k] == rest[2 * (k - 1)] && Flatten(us)[2 * k + 1] == rest[2 * (k - 1) + 1];
    }
  }

  /** A byte string whose bytes 2k and 2k + 1 are those of pair k, for every pair, is the pairs flattened. */
  lemma {:induction false} FlattenUnique(us: seq<Pair>, s: seq<Byte>)
    requires |s| == 2 * |us|
    requires forall k :: 0 <= k < |us| ==> s[2 * k] == us[k][0] && s[2 * k + 1] == us[k][1]
    ensures s == Flatten(us)
    decreases |us|
  {
    if |us| > 0 {
      var t, vs := s[2..], us[1..];
      forall k | 0 <= k < |vs|
        ensures t[2 * k] == vs[k][0] && t[2 * k + 1] == vs[k][1]
      {
        assert vs[k] == us[k + 1];
        assert t[2 * k] == s[2 * (k + 1)] && t[2 * k + 1] == s[2 * (k + 1) + 1];
      }
      FlattenUnique(vs, t);
      assert s == us[0] + t;
    }
  }

  /** Bytes 2k and 2k + 1 of the buffer are the two bytes of unit k. */
  lemma KanjiBytesAt(data: seq<bool>, pos: nat, count: nat, k: nat)
    requires pos + 13 * count <= |data| && k < count
    ensures KanjiBytes(data, pos, count)[2 * k] == UnitAt(data, pos, k)[0]
    ensures KanjiBytes(data, pos, count)[2 * k + 1] == UnitAt(data, pos, k)[1]
  {
    FlattenAt(Units(data, pos, count), k);
  }

  /** A byte string whose bytes 2k and 2k + 1 are those of unit k, for every unit, is the buffer. */
  lemma KanjiBytesUnique(data: seq<bool>, pos: nat, count: nat, s: seq<Byte>)
    requires pos + 13 * count <= |data| && |s| == 2 * count
    requires forall k :: 0 <= k < count ==> s[2 * k] == UnitAt(data, pos, k)[0] && s[2 * k + 1] == UnitAt(data, pos, k)[1]
    ensures s == KanjiBytes(data, pos, count)
  {
    FlattenUnique(Units(data, pos, count), s);
  }

  /** The first unit's pair, then the bytes of the units after it. */
  lemma KanjiBytesCons(data: seq<bool>, pos: nat, count: nat)
    requires count > 0 && pos + 13 * count <= |data|
    ensures KanjiBytes(data, pos, count) == UnitAt(data, pos, 0) + KanjiBytes(data, pos + 13, count - 1)
    ensures var bs := KanjiBytes(data, pos, count); var u := KanjiUnit(BitsValue(data, pos, 13));
      bs[0] == u[0] && bs[1] == u[1] && bs[2..] == KanjiBytes(data, pos + 13, count - 1)
  {
    var us, vs := Units(data, pos, count), Units(data, pos + 13, count - 1);
    forall k | 0 <= k < count - 1
      ensures us[1..][k] == vs[k]
    {
      UnitAtShift(data, pos, k);
    }
    assert us[1..] == vs;
    assert Flatten(us) == us[0] + Flatten(vs);
    assert UnitAt(data, pos, 0) == KanjiUnit(BitsValue(data, pos, 13));
  }

  /** A byte string made of byte pairs in range. */
  predicate KanjiText(bs: seq<Byte>)
    decreases |bs|
  {
    |bs| == 0 || (|bs| >= 2 && KanjiPair(bs[0], bs[1]) && KanjiText(bs[2..]))
  }

  /** The Kanji-mode bit string of such a byte string: 13 bits per pair. */
  function EncodeKanji(bs: seq<Byte>): (s: seq<bool>)
    requires KanjiText(bs)
    ensures |s| == 13 * (|bs| / 2)
    decreases |bs|
  {
    if |bs| == 0 then []
    else
      assert |bs[2..]| / 2 == |bs| / 2 - 1;
      ToBits(KanjiEncode(bs[0], bs[1]), 13) + EncodeKanji(bs[2..])
  }

  /** Reading back the packing of any byte string of pairs in range, wherever it sits in the stream, gives those bytes. */
  lemma {:induction false} KanjiBytesOfEncoding(data: seq<bool>, pos: nat, bs: seq<Byte>)
    requires KanjiText(bs) && pos + |EncodeKanji(bs)| <= |data|
    requires data[pos .. pos + |EncodeKanji(bs)|] == EncodeKanji(bs)
    ensures KanjiBytes(data, pos, |bs| / 2) == bs
    decreases |bs|
  {
    if |bs| > 0 {
      Pow2Widths();
      var count, v, tail := |bs| / 2, KanjiEncode(bs[0], bs[1]), bs[2..];
      KanjiPairDecodes(bs[0], bs[1]);
      SplitSlice(data, pos, ToBits(v, 13), EncodeKanji(tail));
      BitsValueOfToBits(data, pos, v, 13);
      KanjiBytesOfEncoding(data, pos + 13, tail);
      assert |tail| / 2 == count - 1;
      KanjiBytesCons(data, pos, count);
      assert bs == [bs[0], bs[1]] + tail;
    }
  }

  /** Kanji segments round-trip: decoding the packing of a byte string of pairs in range gives back that string. */
  lemma KanjiRoundTrip(data: seq<bool>, pos: nat, bs: seq<Byte>)
    requires KanjiText(bs) && pos + |EncodeKanji(bs)| <= |data|
    requires data[pos .. pos + |EncodeKanji(bs)|] == EncodeKanji(bs)
    ensures KanjiBytes(data, pos, |bs| / 2) == bs
    ensures Yields(KanjiSpec(data, pos, |bs| / 2), [Encoded(ShiftJIS, bs)], pos + 13 * (|bs| / 2))
  {
    KanjiBytesOfEncoding(data, pos, bs);
  }

  /** Every byte string a Kanji segment decodes to is made of pairs in range. */
  lemma {:induction false} KanjiBytesAreText(data: seq<bool>, pos: nat, count: nat)
    requires pos + 13 * count <= |data|
    ensures KanjiText(KanjiBytes(data, pos, count))
    decreases count
  {
    if count > 0 {
      Pow2Widths();
      KanjiBytesCons(data, pos, count);
      KanjiUnitEncodes(BitsValue(data, pos, 13));
      KanjiBytesAreText(data, pos + 13, count - 1);
    }
  }

  /** The packing of a Kanji segment's bytes starts with the first unit's 13 bits as read. */
  lemma EncodeKanjiCons(data: seq<bool>, pos: nat, count: nat)
    requires count > 0 && pos + 13 * count <= |data|
    ensures KanjiText(KanjiBytes(data, pos, count)) && KanjiText(KanjiBytes(data, pos + 13, count - 1))
    ensures EncodeKanji(KanjiBytes(data, pos, count))
         == ToBits(BitsValue(data, pos, 13), 13) + EncodeKanji(KanjiBytes(data, pos + 13, count - 1))
  {
    Pow2Widths();
    KanjiBytesAreText(data, pos, count);
    KanjiBytesAreText(data, pos + 13, count - 1);
    KanjiBytesCons(data, pos, count);
    KanjiUnitEncodes(BitsValue(data, pos, 13));
  }

  /**
   * The converse of the round trip: a Kanji segment that decodes appends a byte string of pairs in
   * range, and the bits it consumed are exactly that string's packing.
   */
  lemma {:induction false} KanjiDecodeEncode(data: seq<bool>, pos: nat, count: nat)
    requires pos + 13 * count <= |data|
    ensures KanjiText(KanjiBytes(data, pos, count))
    ensures EncodeKanji(KanjiBytes(data, pos, count)) == data[pos .. pos + 13 * count]
    decreases count
  {
    KanjiBytesAreText(data, pos, count);
    if count > 0 {
      var rest := pos + 13;
      EncodeKanjiCons(data, pos, count);
      KanjiDecodeEncode(data, rest, count - 1);
      ToBitsOfBitsValue(data, pos, 13);
      JoinParts(EncodeKanji(KanjiBytes(data, pos, count)), ToBits(BitsValue(data, pos, 13), 13),
                EncodeKanji(KanjiBytes(data, rest, count - 1)), data, pos, rest, rest + 13 * (count - 1), pos + 13 * count);
    }
  }

  /**
   * A Kanji segment fails exactly when its 13 * count bits are not all there; on success it appends
   * one Shift_JIS piece of 2 * count bytes, the pair for unit k at bytes 2k and 2k + 1.
   */
  lemma KanjiShape(data: seq<bool>, pos: nat, count: nat, k: nat)
    requires pos <= |data|
    ensures var r := KanjiSpec(data, pos, count);
      && (r.Ok? <==> pos + 13 * count <= |data|)
      && (r.Err? ==> r.error == NotEnoughBits)
      && (r.Ok? ==> r.value.next == pos + 13 * count && |r.value.out| == 1 && r.value.out[0].charset == ShiftJIS
                    && |r.value.out[0].bytes| == 2 * count)
    ensures pos + 13 * count <= |data| && k < count ==>
      var bs, u := KanjiBytes(data, pos, count), KanjiUnit(BitsValue(data, pos + 13 * k, 13));
      bs[2 * k] == u[0] && bs[2 * k + 1] == u[1]
  {
    if pos + 13 * count <= |data| && k < count {
      KanjiBytesAt(data, pos, count, k);
    }
  }

  /** A successful decode depends only on the bits up to where it stops. */
  lemma KanjiBytesAgree(d1: seq<bool>, d2: seq<bool>, pos: nat, count: nat)
    requires Agree(d1, d2, pos + 13 * count)
    ensures KanjiBytes(d1, pos, count) == KanjiBytes(d2, pos, count)
  {
    forall k | 0 <= k < count
      ensures UnitAt(d1, pos, k) == UnitAt(d2, pos, k)
    {
      ReadAgrees(d1, d2, pos + 13 * count, pos + 13 * k, 13);
    }
    assert Units(d1, pos, count) == Units(d2, pos, count);
  }

  lemma KanjiAgrees(d1: seq<bool>, d2: seq<bool>, pos: nat, count: nat)
    requires pos <= |d1| && KanjiSpec(d1, pos, count).Ok?
    requires Agree(d1, d2, KanjiSpec(d1, pos, count).value.next)
    ensures pos <= |d2| && KanjiSpec(d2, pos, count) == KanjiSpec(d1, pos, count)
  {
    KanjiBytesAgree(d1, d2, pos, count);
  }

  /**
   * Both sides of the 0x1F00 boundary: unit 0 is 0x8140, unit 0x173F (row 30, column 0xBF) is 0x9FFF,
   * the last code of the first range, and unit 0x1740 (row 31, column 0) is 0xE040, the first of the second.
   */
  lemma KanjiExamples()
    ensures Assembled(0) < 0x1F00 && KanjiUnit(0)[0] == 0x81 && KanjiUnit(0)[1] == 0x40
    ensures Assembled(0x173F) < 0x1F00 && KanjiUnit(0x173F)[0] == 0x9F && KanjiUnit(0x173F)[1] == 0xFF
    ensures Assembled(0x1740) >= 0x1F00 && KanjiUnit(0x1740)[0] == 0xE0 && KanjiUnit(0x1740)[1] == 0x40
  {
    KanjiUnitLayout(0);
    KanjiUnitLayout(0x173F);
    KanjiUnitLayout(0x1740);
  }

  /**
   * The body of decodeKanjiSegment's loop for one 13-bit unit: row and column joined with a shift
   * and an or, moved into the lower or the upper Shift_JIS range, then split into its two bytes.
   * These are the bytes KanjiUnit specifies.
   */
  method AssembleUnit(twoBytes: nat) returns (high: Byte, low: Byte)
    requires twoBytes < 0x2000
    ensures high == KanjiUnit(twoBytes)[0] && low == KanjiUnit(twoBytes)[1]
  {
    var assembledTwoBytes := BitOr(ShiftLeft(twoBytes / 0xC0, 8), twoBytes % 0xC0);
    ShiftOrIsAssembled(twoBytes);
    if assembledTwoBytes < 0x1F00 {
      assembledTwoBytes := assembledTwoBytes + 0x8140;
    } else {
      assembledTwoBytes := assembledTwoBytes + 0xC140;
    }
    high := (assembledTwoBytes / 0x100) % 0x100;
    low := assembledTwoBytes % 0x100;
  }

  /**
   * decodeKanjiSegment: reads count 13-bit units, storing each unit's two bytes into a fresh buffer
   * of 2 * count bytes, and appends the buffer tagged Shift_JIS; or reports the failing read's error.
   */
  method DecodeKanjiSegment(bits: BitSource, result: TextBuffer, count: nat) returns (outcome: Outcome)
    requires bits.Valid()
    modifies bits, result
    ensures bits.Valid()
    ensures match KanjiSpec(bits.data, old(bits.offset), count)
      case Ok(d) => outcome == Pass && bits.offset == d.next && result.fragments == old(result.fragments) + d.out
      case Err(e) => outcome == Fail(e) && result.fragments == old(result.fragments)
  {
    var buffer := new Byte[2 * count];
    var offset := 0;
    var remaining := count;
    ghost var start := bits.offset;
    Pow2Widths();
    while remaining > 0
      invariant bits.Valid() && result.fragments == old(result.fragments)
      invariant remaining <= count && offset == 2 * (count - remaining) && offset <= buffer.Length == 2 * count
      invariant bits.offset == start + 13 * (count - remaining)
      invariant forall k :: 0 <= k < count - remaining ==>
        buffer[2 * k] == UnitAt(bits.data, start, k)[0] && buffer[2 * k + 1] == UnitAt(bits.data, start, k)[1]
    {
      ghost var k := count - remaining;
      var r := bits.ReadBits(13);
      if r.Err? {
        return Fail(r.error);
      }
      var twoBytes := r.value;
      assert UnitAt(bits.data, start, k) == KanjiUnit(twoBytes);
      var high, low := AssembleUnit(twoBytes);
      buffer[offset] := high;
      buffer[offset + 1] := low;
      offset := offset + 2;
      remaining := remaining - 1;
    }
    ghost var stored := buffer[..];
    assert forall k :: 0 <= k < count ==>
      stored[2 * k] == UnitAt(bits.data, start, k)[0] && stored[2 * k + 1] == UnitAt(bits.data, start, k)[1];
    KanjiBytesUnique(bits.data, start, count, stored);
    result.Append(Encoded(ShiftJIS, buffer[..]));
    return Pass;
  }
}
