/**
 * decodeAlphanumericSegment: symbols packed two to 11 bits as base-45 pairs, with a 6-bit single
 * symbol at the end of an odd-length segment (ISO/IEC 18004:2006 section 6.4.4).
 */
module AlphanumericSegment {
  import opened Results
  import opened BitStream
  import opened Text

  /** The bits an alphanumeric segment of count symbols occupies. */
  function AlphanumericBitLength(count: nat): nat
  {
    11 * (count / 2) + 6 * (count % 2)
  }

  /** The character appended for table index x. */
  function TableSymbol(x: Index): Fragment
  {
    Symbol(AlphanumericChar(x))
  }

  /** The characters of a string of table indices, in order. */
  function SymbolText(xs: seq<Index>): seq<Fragment>
  {
    seq(|xs|, i requires 0 <= i < |xs| => TableSymbol(xs[i]))
  }

  /** The two characters of an 11-bit pair below 45 * 45: the entries at v / 45 and at v % 45. */
  function PairSymbols(v: nat): seq<Fragment>
    requires v < 2025
  {
    [TableSymbol(v / 45), TableSymbol(v % 45)]
  }

  /**
   * What decodeAlphanumericSegment appends for count symbols read from bit position pos, and where
   * it leaves the cursor. The source indexes the 45-entry table without a bounds check: a pair value
   * of 2025 or more (v / 45 past the end) or a single value of 45 or more fails here with
   * SymbolIndexOutOfRange, as the array access fails in the source.
   */
  function AlphanumericSpec(data: seq<bool>, pos: nat, count: nat): (r: Result<Decoded>)
    requires pos <= |data|
    ensures r.Ok? ==> pos <= r.value.next <= |data|
    decreases count
  {
    if count > 1 then
      var v :- Read(data, pos, 11);
      if v >= 2025 then Err(SymbolIndexOutOfRange)
      else Prepend(PairSymbols(v), AlphanumericSpec(data, pos + 11, count - 2))
    else if count == 1 then
      var v :- Read(data, pos, 6);
      if v >= 45 then Err(SymbolIndexOutOfRange)
      else Ok(Decoded([TableSymbol(v)], pos + 6))
    else
      Ok(Decoded([], pos))
  }

  /** The 11-bit value of a pair of table indices. */
  function PairValue(a: Index, b: Index): nat
  {
    45 * (a as int) + b
  }

  /** The alphanumeric-mode bit string of a string of table indices: the packing an encoder produces. */
  function EncodeAlphanumeric(xs: seq<Index>): seq<bool>
  {
    if |xs| >= 2 then ToBits(PairValue(xs[0], xs[1]), 11) + EncodeAlphanumeric(xs[2..])
    else if |xs| == 1 then ToBits(xs[0], 6)
    else []
  }

  /** The two table indices of a pair value below 2025. */
  function PairIndices(v: nat): (xs: seq<Index>)
    requires v < 2025
    ensures |xs| == 2 && PairValue(xs[0], xs[1]) == v
  {
    [v / 45, v % 45]
  }

  /** Two table indices are the indices of the value they spell, and that value is below 2025. */
  lemma IndicesOfPair(a: Index, b: Index)
    ensures PairValue(a, b) < 2025 && PairIndices(PairValue(a, b)) == [a, b]
  {
  }

  /** A pair v in front of an index string: its text is v's two characters, its packing v's 11 bits first. */
  lemma PairFirst(v: nat, tail: seq<Index>)
    requires v < 2025
    ensures |PairIndices(v) + tail| == 2 + |tail|
    ensures SymbolText(PairIndices(v) + tail) == PairSymbols(v) + SymbolText(tail)
    ensures EncodeAlphanumeric(PairIndices(v) + tail) == ToBits(v, 11) + EncodeAlphanumeric(tail)
  {
    var xs := PairIndices(v) + tail;
    assert xs[2..] == tail;
    assert SymbolText(xs) == PairSymbols(v) + SymbolText(tail) by {
      forall i | 0 <= i < |xs|
        ensures SymbolText(xs)[i] == (PairSymbols(v) + SymbolText(tail))[i]
      {
        if i >= 2 {
          assert xs[i] == tail[i - 2];
        }
      }
    }
  }

  /** One pair read at pos: its two characters come first, then whatever the rest decodes to. */
  lemma AlphanumericPairStep(data: seq<bool>, pos: nat, count: nat)
    requires count > 1 && pos + 11 <= |data|
    requires BitsValue(data, pos, 11) < 2025
    ensures AlphanumericSpec(data, pos, count)
         == Prepend(PairSymbols(BitsValue(data, pos, 11)), AlphanumericSpec(data, pos + 11, count - 2))
  {
  }

  /** The packing of n symbols is AlphanumericBitLength(n) bits long. */
  lemma {:induction false} EncodeAlphanumericLength(xs: seq<Index>)
    ensures |EncodeAlphanumeric(xs)| == AlphanumericBitLength(|xs|)
    decreases |xs|
  {
    if |xs| >= 2 {
      EncodeAlphanumericLength(xs[2..]);
      assert AlphanumericBitLength(|xs|) == 11 + AlphanumericBitLength(|xs| - 2);
    }
  }

  /** Decoding the packing of any string of table indices, wherever it sits in the stream, gives back its characters. */
  lemma {:induction false} AlphanumericRoundTrip(data: seq<bool>, pos: nat, xs: seq<Index>)
    requires pos + |EncodeAlphanumeric(xs)| <= |data|
    requires data[pos .. pos + |EncodeAlphanumeric(xs)|] == EncodeAlphanumeric(xs)
    ensures Yields(AlphanumericSpec(data, pos, |xs|), SymbolText(xs), pos + |EncodeAlphanumeric(xs)|)
    decreases |xs|
  {
    Pow2Widths();
    if |xs| >= 2 {
      var v := PairValue(xs[0], xs[1]);
      var tail := xs[2..];
      IndicesOfPair(xs[0], xs[1]);
      assert xs == PairIndices(v) + tail;
      PairFirst(v, tail);
      SplitSlice(data, pos, ToBits(v, 11), EncodeAlphanumeric(tail));
      ReadSlice(data, pos, v, 11);
      AlphanumericPairStep(data, pos, |xs|);
      AlphanumericRoundTrip(data, pos + 11, tail);
      PrependYields(PairSymbols(v), AlphanumericSpec(data, pos + 11, |tail|), SymbolText(tail),
                    pos + 11 + |EncodeAlphanumeric(tail)|);
    } else if |xs| == 1 {
      ReadSlice(data, pos, xs[0], 6);
      assert SymbolText(xs) == [TableSymbol(xs[0])];
    } else {
      assert SymbolText(xs) == [];
    }
  }

  /**
   * The converse: an alphanumeric segment that decodes produces some string of table indices, and
   * the bits it consumed are exactly that string's packing.
   */
  lemma {:induction false} AlphanumericDecodeEncode(data: seq<bool>, pos: nat, count: nat) returns (xs: seq<Index>)
    requires pos <= |data| && AlphanumericSpec(data, pos, count).Ok?
    ensures |xs| == count
    ensures AlphanumericSpec(data, pos, count).value.out == SymbolText(xs)
    ensures data[pos .. AlphanumericSpec(data, pos, count).value.next] == EncodeAlphanumeric(xs)
    decreases count
  {
    var next := AlphanumericSpec(data, pos, count).value.next;
    if count > 1 {
      var v := BitsValue(data, pos, 11);
      AlphanumericPairStep(data, pos, count);
      var tail := AlphanumericDecodeEncode(data, pos + 11, count - 2);
      xs := PairIndices(v) + tail;
      PairFirst(v, tail);
      ToBitsOfBitsValue(data, pos, 11);
      JoinSlice(data, pos, pos + 11, next);
    } else if count == 1 {
      xs := [BitsValue(data, pos, 6)];
      ToBitsOfBitsValue(data, pos, 6);
      assert SymbolText(xs) == [TableSymbol(xs[0])];
    } else {
      xs := [];
      assert SymbolText(xs) == [];
    }
  }

  /**
   * On success exactly count characters are appended, each an entry of the alphanumeric table,
   * using AlphanumericBitLength(count) bits.
   */
  lemma AlphanumericShape(data: seq<bool>, pos: nat, count: nat)
    requires pos <= |data| && AlphanumericSpec(data, pos, count).Ok?
    ensures var d := AlphanumericSpec(data, pos, count).value;
      && |d.out| == count
      && d.next == pos + AlphanumericBitLength(count)
      && forall i :: 0 <= i < |d.out| ==> d.out[i].Symbol? && d.out[i].c in AlphanumericChars
  {
    var xs := AlphanumericDecodeEncode(data, pos, count);
    var d := AlphanumericSpec(data, pos, count).value;
    EncodeAlphanumericLength(xs);
    assert |data[pos .. d.next]| == d.next - pos;
    forall i | 0 <= i < |d.out|
      ensures d.out[i].Symbol? && d.out[i].c in AlphanumericChars
    {
      assert d.out[i] == TableSymbol(xs[i]);
      AlphanumericCharIsTableEntry(xs[i]);
    }
  }

  /** The value of the k-th pair of a segment that starts at pos. */
  ghost function PairAt(data: seq<bool>, pos: nat, k: nat): nat
    requires pos + 11 * k + 11 <= |data|
  {
    BitsValue(data, pos + 11 * k, 11)
  }

  /** Enough bits for the whole segment, every pair below 2025 and a final single below 45. */
  ghost predicate AlphanumericInRange(data: seq<bool>, pos: nat, count: nat)
  {
    && pos + AlphanumericBitLength(count) <= |data|
    && (forall k :: 0 <= k < count / 2 ==> PairAt(data, pos, k) < 2025)
    && (count % 2 == 1 ==> BitsValue(data, pos + 11 * (count / 2), 6) < 45)
  }

  /** Peeling off the first pair: the range condition splits into that pair and the rest. */
  lemma AlphanumericInRangeStep(data: seq<bool>, pos: nat, count: nat)
    requires count > 1 && pos + 11 <= |data|
    ensures AlphanumericInRange(data, pos, count)
        <==> PairAt(data, pos, 0) < 2025 && AlphanumericInRange(data, pos + 11, count - 2)
  {
    var p := pos + 11;
    assert (count - 2) / 2 == count / 2 - 1 && (count - 2) % 2 == count % 2;
    assert AlphanumericBitLength(count) == 11 + AlphanumericBitLength(count - 2);
    assert pos + 11 * (count / 2) == p + 11 * ((count - 2) / 2);
    if AlphanumericInRange(data, pos, count) {
      assert PairAt(data, pos, 0) < 2025;
      forall k | 0 <= k < (count - 2) / 2
        ensures PairAt(data, p, k) < 2025
      {
        assert PairAt(data, p, k) == PairAt(data, pos, k + 1);
      }
    }
    if PairAt(data, pos, 0) < 2025 && AlphanumericInRange(data, p, count - 2) {
      forall k | 0 <= k < count / 2
        ensures PairAt(data, pos, k) < 2025
      {
        if k > 0 {
          assert PairAt(data, p, k - 1) == PairAt(data, pos, k);
        }
      }
    }
  }

  /**
   * An alphanumeric segment decodes if and only if its bits are all there and every value indexes
   * the table; otherwise it fails with NotEnoughBits or SymbolIndexOutOfRange.
   */
  lemma {:induction false} AlphanumericSucceedsIff(data: seq<bool>, pos: nat, count: nat)
    requires pos <= |data|
    ensures AlphanumericSpec(data, pos, count).Ok? <==> AlphanumericInRange(data, pos, count)
    ensures AlphanumericSpec(data, pos, count).Err? ==>
      AlphanumericSpec(data, pos, count).error in {NotEnoughBits, SymbolIndexOutOfRange}
    decreases count
  {
    if count > 1 {
      if pos + 11 > |data| {
        assert AlphanumericBitLength(count) >= 11;
      } else {
        AlphanumericInRangeStep(data, pos, count);
        AlphanumericSucceedsIff(data, pos + 11, count - 2);
        assert PairAt(data, pos, 0) == BitsValue(data, pos, 11);
      }
    }
  }

  /** A successful decode depends only on the bits up to where it stops. */
  lemma {:induction false} AlphanumericAgrees(d1: seq<bool>, d2: seq<bool>, pos: nat, count: nat)
    requires pos <= |d1| && AlphanumericSpec(d1, pos, count).Ok?
    requires Agree(d1, d2, AlphanumericSpec(d1, pos, count).value.next)
    ensures pos <= |d2| && AlphanumericSpec(d2, pos, count) == AlphanumericSpec(d1, pos, count)
    decreases count
  {
    var k := AlphanumericSpec(d1, pos, count).value.next;
    if count > 1 {
      ReadAgrees(d1, d2, k, pos, 11);
      AlphanumericAgrees(d1, d2, pos + 11, count - 2);
    } else if count == 1 {
      ReadAgrees(d1, d2, k, pos, 6);
    }
  }

  /** The pair value 45 * 10 + 20 decodes to "AK": index 10 is 'A' and index 20 is 'K'. */
  lemma PairExample(data: seq<bool>)
    requires data == ToBits(470, 11)
    ensures Yields(AlphanumericSpec(data, 0, 2), [Symbol('A'), Symbol('K')], 11)
  {
    var xs: seq<Index> := [10, 20];
    assert EncodeAlphanumeric(xs) == ToBits(470, 11) by {
      assert xs[2..] == [];
    }
    assert data[0 .. 11] == data;
    AlphanumericRoundTrip(data, 0, xs);
    assert SymbolText(xs) == [Symbol('A'), Symbol('K')];
  }

  /** A single trailing value 0 decodes to "0". */
  lemma SingleExample(data: seq<bool>)
    requires data == ToBits(0, 6)
    ensures Yields(AlphanumericSpec(data, 0, 1), [Symbol('0')], 6)
  {
    Pow2Widths();
    assert data[0 .. 6] == data;
    ReadSlice(data, 0, 0, 6);
  }

  /** Eleven one bits spell 2047, whose first index 45 is past the table: the segment fails. */
  lemma PairOutOfRange(data: seq<bool>, count: nat)
    requires data == ToBits(2047, 11) && count >= 2
    ensures AlphanumericSpec(data, 0, count) == Err(SymbolIndexOutOfRange)
  {
    Pow2Widths();
    assert data[0 .. 11] == data;
    ReadSlice(data, 0, 2047, 11);
  }

  /**
   * One turn of decodeAlphanumericSegment's loop, on the specification: with a prefix done already
   * decoded, the read r of a pair at p either fails the whole segment with the read's error or with
   * SymbolIndexOutOfRange, or moves the pair's two characters into the prefix and the cursor to q.
   */
  lemma AlphanumericLoopStep(data: seq<bool>, p: nat, q: nat, remaining: nat, done: seq<Fragment>,
                             spec: Result<Decoded>, r: Result<nat>)
    requires remaining > 1 && p <= |data| && r == Read(data, p, 11) && (r.Ok? ==> q == p + 11)
    requires spec == Prepend(done, AlphanumericSpec(data, p, remaining))
    ensures r.Err? ==> spec.Err? && spec.error == r.error
    ensures r.Ok? && r.value >= 2025 ==> spec.Err? && spec.error == SymbolIndexOutOfRange
    ensures r.Ok? && r.value < 2025 ==>
      q <= |data| && spec == Prepend(done + PairSymbols(r.value), AlphanumericSpec(data, q, remaining - 2))
  {
    if r.Ok? && r.value < 2025 {
      AlphanumericPairStep(data, p, remaining);
      PrependTwice(done, PairSymbols(r.value), AlphanumericSpec(data, q, remaining - 2));
    }
  }

  /**
   * The end of decodeAlphanumericSegment, on the specification: with at most one symbol left at p,
   * the segment fails with the final read's error or SymbolIndexOutOfRange, or succeeds with done
   * followed by the final symbol, if any.
   */
  lemma AlphanumericTailStep(data: seq<bool>, p: nat, remaining: nat, done: seq<Fragment>, spec: Result<Decoded>)
    requires remaining <= 1 && p <= |data|
    requires spec == Prepend(done, AlphanumericSpec(data, p, remaining))
    ensures remaining == 1 && Read(data, p, 6).Err? ==> spec.Err? && spec.error == Read(data, p, 6).error
    ensures remaining == 1 && Read(data, p, 6).Ok? && Read(data, p, 6).value >= 45 ==>
      spec.Err? && spec.error == SymbolIndexOutOfRange
    ensures remaining == 1 && Read(data, p, 6).Ok? && Read(data, p, 6).value < 45 ==>
      Yields(spec, done + [TableSymbol(Read(data, p, 6).value)], p + 6)
    ensures remaining == 0 ==> Yields(spec, done, p)
  {
    if remaining == 0 {
      assert done + [] == done;
    }
  }

  /** The two appends of a pair: the table entries at v / 45 and at v % 45. */
  method AppendPair(result: TextBuffer, v: nat)
    requires v < 2025
    modifies result
    ensures result.fragments == old(result.fragments) + PairSymbols(v)
  {
    result.AppendTableEntry(v / 45);
    result.AppendTableEntry(v % 45);
    AppendTwo(old(result.fragments), TableSymbol(v / 45), TableSymbol(v % 45));
  }

  /**
   * decodeAlphanumericSegment: appends to result what AlphanumericSpec says and advances the cursor
   * to its end, or reports AlphanumericSpec's error.
   */
  method DecodeAlphanumericSegment(bits: BitSource, result: TextBuffer, count: nat) returns (outcome: Outcome)
    requires bits.Valid()
    modifies bits, result
    ensures bits.Valid()
    ensures match AlphanumericSpec(bits.data, old(bits.offset), count)
      case Ok(d) => outcome == Pass && bits.offset == d.next && result.fragments == old(result.fragments) + d.out
      case Err(e) => outcome == Fail(e)
  {
    ghost var spec := AlphanumericSpec(bits.data, bits.offset, count);
    ghost var done: seq<Fragment> := [];
    PrependNothing(spec);
    var remaining := count;
    while remaining > 1
      invariant bits.Valid()
      invariant result.fragments == old(result.fragments) + done
      invariant spec == Prepend(done, AlphanumericSpec(bits.data, bits.offset, remaining))
    {
      ghost var p := bits.offset;
      var r := bits.ReadBits(11);
      AlphanumericLoopStep(bits.data, p, bits.offset, remaining, done, spec, r);
      if r.Err? {
        return Fail(r.error);
      }
      var nextTwoCharsBits := r.value;
      if nextTwoCharsBits >= 2025 {
        return Fail(SymbolIndexOutOfRange);
      }
      AppendPair(result, nextTwoCharsBits);
      AppendAssoc(old(result.fragments), done, PairSymbols(nextTwoCharsBits));
      done := done + PairSymbols(nextTwoCharsBits);
      remaining := remaining - 2;
    }
    ghost var last: seq<Fragment> := [];
    AlphanumericTailStep(bits.data, bits.offset, remaining, done, spec);
    if remaining == 1 {
      var r := bits.ReadBits(6);
      if r.Err? {
        return Fail(r.error);
      }
      if r.value >= 45 {
        return Fail(SymbolIndexOutOfRange);
      }
      result.AppendTableEntry(r.value);
      last := [TableSymbol(r.value)];
    }
    AppendAssoc(old(result.fragments), done, last);
    return Pass;
  }
}
