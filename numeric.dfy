/** decodeNumericSegment: digits packed three to 10 bits, with a 7-bit pair or 4-bit single at the end (ISO/IEC 18004:2006 section 6.4.3). */
module NumericSegment {
  import opened Results
  import opened BitStream
  import opened Text

  /** The bits a numeric segment of count digits occupies. */
  function NumericBitLength(count: nat): nat
  {
    10 * (count / 3) + (if count % 3 == 2 then 7 else if count % 3 == 1 then 4 else 0)
  }

  /** The character decodeNumericSegment appends for digit d: entry d of the alphanumeric table. */
  function DigitSymbol(d: Digit): Fragment
  {
    Symbol(AlphanumericChar(d))
  }

  /** The characters of a digit string, in order. */
  function DigitText(ds: seq<Digit>): seq<Fragment>
  {
    seq(|ds|, i requires 0 <= i < |ds| => DigitSymbol(ds[i]))
  }

  /** The three characters of a 10-bit group: its hundreds, tens and units digits. */
  function TripleText(v: nat): seq<Fragment>
    requires v < 1000
  {
    [DigitSymbol(v / 100), DigitSymbol((v / 10) % 10), DigitSymbol(v % 10)]
  }

  /** The two characters of a 7-bit pair: its tens and units digits. */
  function PairText(v: nat): seq<Fragment>
    requires v < 100
  {
    [DigitSymbol(v / 10), DigitSymbol(v % 10)]
  }

  /**
   * What decodeNumericSegment appends for count digits read from bit position pos, and where it
   * leaves the cursor: each full group is read as 10 bits and must be below 1000, a final pair as
   * 7 bits below 100, a final digit as 4 bits below 10.
   */
  function NumericSpec(data: seq<bool>, pos: nat, count: nat): (r: Result<Decoded>)
    requires pos <= |data|
    ensures r.Ok? ==> pos <= r.value.next <= |data|
    decreases count
  {
    if count >= 3 then
      var v :- Read(data, pos, 10);
      if v >= 1000 then Err(IllegalDigitGroup)
      else Prepend(TripleText(v), NumericSpec(data, pos + 10, count - 3))
    else if count == 2 then
      var v :- Read(data, pos, 7);
      if v >= 100 then Err(IllegalDigitGroup)
      else Ok(Decoded(PairText(v), pos + 7))
    else if count == 1 then
      var v :- Read(data, pos, 4);
      if v >= 10 then Err(IllegalDigitGroup)
      else Ok(Decoded([DigitSymbol(v)], pos + 4))
    else
      Ok(Decoded([], pos))
  }

  function TripleValue(a: Digit, b: Digit, c: Digit): nat
  {
    100 * (a as int) + 10 * (b as int) + c
  }

  function PairValue(a: Digit, b: Digit): nat
  {
    10 * (a as int) + b
  }

  /** The numeric-mode bit string of a digit string: the packing an encoder produces. */
  function EncodeNumeric(ds: seq<Digit>): seq<bool>
  {
    if |ds| >= 3 then ToBits(TripleValue(ds[0], ds[1], ds[2]), 10) + EncodeNumeric(ds[3..])
    else if |ds| == 2 then ToBits(PairValue(ds[0], ds[1]), 7)
    else if |ds| == 1 then ToBits(ds[0], 4)
    else []
  }

  /** The hundreds, tens and units digits of a value below 1000. */
  function TripleDigits(v: nat): (ds: seq<Digit>)
    requires v < 1000
    ensures |ds| == 3 && TripleValue(ds[0], ds[1], ds[2]) == v
  {
    assert v / 100 == (v / 10) / 10;
    [v / 100, (v / 10) % 10, v % 10]
  }

  /** Three digits are the digits of the value they spell. */
  lemma TripleOfDigits(a: Digit, b: Digit, c: Digit)
    ensures TripleValue(a, b, c) < 1000 && TripleDigits(TripleValue(a, b, c)) == [a, b, c]
  {
    var v := TripleValue(a, b, c);
    assert v / 10 == 10 * (a as int) + b;
  }

  /** Two digits are the tens and units of the value they spell, and a value below 100 is spelt by its own. */
  lemma PairOfDigits(a: Digit, b: Digit, v: nat)
    ensures PairValue(a, b) < 100 && PairValue(a, b) / 10 == a && PairValue(a, b) % 10 == b
    ensures v < 100 ==> v / 10 < 10 && PairValue(v / 10, v % 10) == v
  {
  }

  /** A group v in front of a digit string: its text is v's three characters, its packing v's 10 bits first. */
  lemma GroupDigits(v: nat, tail: seq<Digit>)
    requires v < 1000
    ensures |TripleDigits(v) + tail| == 3 + |tail|
    ensures DigitText(TripleDigits(v) + tail) == TripleText(v) + DigitText(tail)
    ensures EncodeNumeric(TripleDigits(v) + tail) == ToBits(v, 10) + EncodeNumeric(tail)
  {
    var ds := TripleDigits(v) + tail;
    assert ds[3..] == tail;
    assert DigitText(ds) == TripleText(v) + DigitText(tail) by {
      forall i | 0 <= i < |ds|
        ensures DigitText(ds)[i] == (TripleText(v) + DigitText(tail))[i]
      {
        if i >= 3 {
          assert ds[i] == tail[i - 3];
        }
      }
    }
  }

  /** A digit string of three or more: its first group's value, which is below 1000, then the rest. */
  lemma GroupSplit(ds: seq<Digit>)
    requires |ds| >= 3
    ensures TripleValue(ds[0], ds[1], ds[2]) < 1000
    ensures ds == TripleDigits(TripleValue(ds[0], ds[1], ds[2])) + ds[3..]
  {
    TripleOfDigits(ds[0], ds[1], ds[2]);
  }

  /** The text of a two-digit string is the pair its value spells. */
  lemma PairDigits(ds: seq<Digit>)
    requires |ds| == 2
    ensures PairValue(ds[0], ds[1]) < 100 && DigitText(ds) == PairText(PairValue(ds[0], ds[1]))
  {
    PairOfDigits(ds[0], ds[1], 0);
  }

  /** One full group read at pos: its three digits come first, then whatever the rest decodes to. */
  lemma NumericGroupStep(data: seq<bool>, pos: nat, count: nat)
    requires count >= 3 && pos + 10 <= |data|
    requires BitsValue(data, pos, 10) < 1000
    ensures NumericSpec(data, pos, count)
         == Prepend(TripleText(BitsValue(data, pos, 10)), NumericSpec(data, pos + 10, count - 3))
  {
  }

  /** The packing of n digits is NumericBitLength(n) bits long. */
  lemma {:induction false} EncodeNumericLength(ds: seq<Digit>)
    ensures |EncodeNumeric(ds)| == NumericBitLength(|ds|)
    decreases |ds|
  {
    if |ds| >= 3 {
      EncodeNumericLength(ds[3..]);
      assert NumericBitLength(|ds|) == 10 + NumericBitLength(|ds| - 3);
    }
  }

  /** Decoding the packing of any digit string, wherever it sits in the stream, gives back those digits. */
  lemma {:induction false} NumericRoundTrip(data: seq<bool>, pos: nat, ds: seq<Digit>)
    requires pos + |EncodeNumeric(ds)| <= |data|
    requires data[pos .. pos + |EncodeNumeric(ds)|] == EncodeNumeric(ds)
    ensures Yields(NumericSpec(data, pos, |ds|), DigitText(ds), pos + |EncodeNumeric(ds)|)
    decreases |ds|
  {
    Pow2Widths();
    if |ds| >= 3 {
      var v := TripleValue(ds[0], ds[1], ds[2]);
      var tail := ds[3..];
      GroupSplit(ds);
      GroupDigits(v, tail);
      SplitSlice(data, pos, ToBits(v, 10), EncodeNumeric(tail));
      ReadSlice(data, pos, v, 10);
      NumericGroupStep(data, pos, |ds|);
      NumericRoundTrip(data, pos + 10, tail);
      PrependYields(TripleText(v), NumericSpec(data, pos + 10, |tail|), DigitText(tail), pos + 10 + |EncodeNumeric(tail)|);
    } else if |ds| == 2 {
      PairDigits(ds);
      ReadSlice(data, pos, PairValue(ds[0], ds[1]), 7);
    } else if |ds| == 1 {
      ReadSlice(data, pos, ds[0], 4);
      assert DigitText(ds) == [DigitSymbol(ds[0])];
    } else {
      assert DigitText(ds) == [];
    }
  }

  /**
   * The converse: a numeric segment that decodes produces some digit string, and the bits it
   * consumed are exactly that string's packing. So decoding and packing are inverse on every input.
   */
  lemma {:induction false} NumericDecodeEncode(data: seq<bool>, pos: nat, count: nat) returns (ds: seq<Digit>)
    requires pos <= |data| && NumericSpec(data, pos, count).Ok?
    ensures |ds| == count
    ensures NumericSpec(data, pos, count).value.out == DigitText(ds)
    ensures data[pos .. NumericSpec(data, pos, count).value.next] == EncodeNumeric(ds)
    decreases count
  {
    var next := NumericSpec(data, pos, count).value.next;
    if count >= 3 {
      var v := BitsValue(data, pos, 10);
      NumericGroupStep(data, pos, count);
      var tail := NumericDecodeEncode(data, pos + 10, count - 3);
      ds := TripleDigits(v) + tail;
      GroupDigits(v, tail);
      ToBitsOfBitsValue(data, pos, 10);
      JoinSlice(data, pos, pos + 10, next);
    } else if count == 2 {
      var v := BitsValue(data, pos, 7);
      PairOfDigits(0, 0, v);
      ds := [v / 10, v % 10];
      PairDigits(ds);
      ToBitsOfBitsValue(data, pos, 7);
    } else if count == 1 {
      ds := [BitsValue(data, pos, 4)];
      ToBitsOfBitsValue(data, pos, 4);
      assert DigitText(ds) == [DigitSymbol(ds[0])];
    } else {
      ds := [];
      assert DigitText(ds) == [];
    }
  }

  /** On success exactly count characters are appended, each '0' to '9', using NumericBitLength(count) bits. */
  lemma NumericShape(data: seq<bool>, pos: nat, count: nat)
    requires pos <= |data| && NumericSpec(data, pos, count).Ok?
    ensures var d := NumericSpec(data, pos, count).value;
      && |d.out| == count
      && d.next == pos + NumericBitLength(count)
      && forall i :: 0 <= i < |d.out| ==> d.out[i].Symbol? && '0' <= d.out[i].c <= '9'
  {
    var ds := NumericDecodeEncode(data, pos, count);
    var d := NumericSpec(data, pos, count).value;
    EncodeNumericLength(ds);
    assert |data[pos .. d.next]| == d.next - pos;
  }

  /** The value of the k-th full three-digit group of a segment that starts at pos. */
  ghost function Triple(data: seq<bool>, pos: nat, k: nat): nat
    requires pos + 10 * k + 10 <= |data|
  {
    BitsValue(data, pos + 10 * k, 10)
  }

  /** Enough bits for the whole segment, and every group below its limit: 1000, 100 or 10. */
  ghost predicate NumericGroupsInRange(data: seq<bool>, pos: nat, count: nat)
  {
    var tail := pos + 10 * (count / 3);
    && pos + NumericBitLength(count) <= |data|
    && (forall k :: 0 <= k < count / 3 ==> Triple(data, pos, k) < 1000)
    && (count % 3 == 2 ==> BitsValue(data, tail, 7) < 100)
    && (count % 3 == 1 ==> BitsValue(data, tail, 4) < 10)
  }

  /** Peeling off the first full group: the range condition splits into that group and the rest. */
  lemma NumericGroupsStep(data: seq<bool>, pos: nat, count: nat)
    requires count >= 3 && pos + 10 <= |data|
    ensures NumericGroupsInRange(data, pos, count)
        <==> Triple(data, pos, 0) < 1000 && NumericGroupsInRange(data, pos + 10, count - 3)
  {
    var p := pos + 10;
    assert (count - 3) / 3 == count / 3 - 1;
    assert NumericBitLength(count) == 10 + NumericBitLength(count - 3);
    assert pos + 10 * (count / 3) == p + 10 * ((count - 3) / 3);
    if NumericGroupsInRange(data, pos, count) {
      assert Triple(data, pos, 0) < 1000;
      forall k | 0 <= k < (count - 3) / 3
        ensures Triple(data, p, k) < 1000
      {
        assert Triple(data, p, k) == Triple(data, pos, k + 1);
      }
    }
    if Triple(data, pos, 0) < 1000 && NumericGroupsInRange(data, p, count - 3) {
      forall k | 0 <= k < count / 3
        ensures Triple(data, pos, k) < 1000
      {
        if k > 0 {
          assert Triple(data, p, k - 1) == Triple(data, pos, k);
        }
      }
    }
  }

  /** A numeric segment decodes if and only if its bits are all there and no group is out of range. */
  lemma {:induction false} NumericSucceedsIff(data: seq<bool>, pos: nat, count: nat)
    requires pos <= |data|
    ensures NumericSpec(data, pos, count).Ok? <==> NumericGroupsInRange(data, pos, count)
    decreases count
  {
    if count >= 3 {
      if pos + 10 > |data| {
        assert NumericBitLength(count) >= 10;
      } else {
        NumericGroupsStep(data, pos, count);
        NumericSucceedsIff(data, pos + 10, count - 3);
        assert Triple(data, pos, 0) == BitsValue(data, pos, 10);
      }
    }
  }

  /** A successful decode depends only on the bits up to where it stops. */
  lemma {:induction false} NumericAgrees(d1: seq<bool>, d2: seq<bool>, pos: nat, count: nat)
    requires pos <= |d1| && NumericSpec(d1, pos, count).Ok?
    requires Agree(d1, d2, NumericSpec(d1, pos, count).value.next)
    ensures pos <= |d2| && NumericSpec(d2, pos, count) == NumericSpec(d1, pos, count)
    decreases count
  {
    var k := NumericSpec(d1, pos, count).value.next;
    if count >= 3 {
      ReadAgrees(d1, d2, k, pos, 10);
      NumericAgrees(d1, d2, pos + 10, count - 3);
    } else if count == 2 {
      ReadAgrees(d1, d2, k, pos, 7);
    } else if count == 1 {
      ReadAgrees(d1, d2, k, pos, 4);
    }
  }

  /**
   * One turn of decodeNumericSegment's loop, on the specification: with a prefix done already decoded,
   * the read r of a group at p either fails the whole segment with the read's error or the group's,
   * or moves the group's three digits into the prefix and the cursor to q, just past the group.
   */
  lemma NumericLoopStep(data: seq<bool>, p: nat, q: nat, remaining: nat, done: seq<Fragment>, spec: Result<Decoded>,
                        r: Result<nat>)
    requires remaining >= 3 && p <= |data| && r == Read(data, p, 10) && (r.Ok? ==> q == p + 10)
    requires spec == Prepend(done, NumericSpec(data, p, remaining))
    ensures r.Err? ==> spec.Err? && spec.error == r.error
    ensures r.Ok? && r.value >= 1000 ==> spec.Err? && spec.error == IllegalDigitGroup
    ensures r.Ok? && r.value < 1000 ==>
      q <= |data| && spec == Prepend(done + TripleText(r.value), NumericSpec(data, q, remaining - 3))
  {
    if r.Ok? && r.value < 1000 {
      NumericGroupStep(data, p, remaining);
      PrependTwice(done, TripleText(r.value), NumericSpec(data, q, remaining - 3));
    }
  }

  /**
   * The end of decodeNumericSegment, on the specification: with fewer than three digits left at p,
   * the segment fails with the final read's error or the final unit's, or succeeds with done
   * followed by the final one or two digits.
   */
  lemma NumericTailStep(data: seq<bool>, p: nat, remaining: nat, done: seq<Fragment>, spec: Result<Decoded>)
    requires remaining < 3 && p <= |data|
    requires spec == Prepend(done, NumericSpec(data, p, remaining))
    ensures remaining == 2 && Read(data, p, 7).Err? ==> spec.Err? && spec.error == Read(data, p, 7).error
    ensures remaining == 2 && Read(data, p, 7).Ok? && Read(data, p, 7).value >= 100 ==>
      spec.Err? && spec.error == IllegalDigitGroup
    ensures remaining == 2 && Read(data, p, 7).Ok? && Read(data, p, 7).value < 100 ==>
      Yields(spec, done + PairText(Read(data, p, 7).value), p + 7)
    ensures remaining == 1 && Read(data, p, 4).Err? ==> spec.Err? && spec.error == Read(data, p, 4).error
    ensures remaining == 1 && Read(data, p, 4).Ok? && Read(data, p, 4).value >= 10 ==>
      spec.Err? && spec.error == IllegalDigitGroup
    ensures remaining == 1 && Read(data, p, 4).Ok? && Read(data, p, 4).value < 10 ==>
      Yields(spec, done + [DigitSymbol(Read(data, p, 4).value)], p + 4)
    ensures remaining == 0 ==> Yields(spec, done, p)
  {
    if remaining == 0 {
      assert done + [] == done;
    }
  }

  /** The three appends of a full group: the table entries of v's hundreds, tens and units digits. */
  method AppendTriple(result: TextBuffer, v: nat)
    requires v < 1000
    modifies result
    ensures result.fragments == old(result.fragments) + TripleText(v)
  {
    result.AppendTableEntry(v / 100);
    result.AppendTableEntry((v / 10) % 10);
    result.AppendTableEntry(v % 10);
    AppendThree(old(result.fragments), DigitSymbol(v / 100), DigitSymbol((v / 10) % 10), DigitSymbol(v % 10));
  }

  /** The two appends of a final pair: the table entries of v's tens and units digits. */
  method AppendPair(result: TextBuffer, v: nat)
    requires v < 100
    modifies result
    ensures result.fragments == old(result.fragments) + PairText(v)
  {
    result.AppendTableEntry(v / 10);
    result.AppendTableEntry(v % 10);
    AppendTwo(old(result.fragments), DigitSymbol(v / 10), DigitSymbol(v % 10));
  }

  /**
   * decodeNumericSegment: appends to result what NumericSpec says and advances the cursor to its end,
   * or reports NumericSpec's error (the source throws, and the partial result is discarded).
   */
  method DecodeNumericSegment(bits: BitSource, result: TextBuffer, count: nat) returns (outcome: Outcome)
    requires bits.Valid()
    modifies bits, result
    ensures bits.Valid()
    ensures match NumericSpec(bits.data, old(bits.offset), count)
      case Ok(d) => outcome == Pass && bits.offset == d.next && result.fragments == old(result.fragments) + d.out
      case Err(e) => outcome == Fail(e)
  {
    ghost var spec := NumericSpec(bits.data, bits.offset, count);
    ghost var done: seq<Fragment> := [];
    PrependNothing(spec);
    var remaining := count;
    while remaining >= 3
      invariant bits.Valid()
      invariant result.fragments == old(result.fragments) + done
      invariant spec == Prepend(done, NumericSpec(bits.data, bits.offset, remaining))
    {
      ghost var p := bits.offset;
      var r := bits.ReadBits(10);
      NumericLoopStep(bits.data, p, bits.offset, remaining, done, spec, r);
      if r.Err? {
        return Fail(r.error);
      }
      var threeDigitsBits := r.value;
      if threeDigitsBits >= 1000 {
        return Fail(IllegalDigitGroup);
      }
      AppendTriple(result, threeDigitsBits);
      AppendAssoc(old(result.fragments), done, TripleText(threeDigitsBits));
      done := done + TripleText(threeDigitsBits);
      remaining := remaining - 3;
    }
    ghost var last: seq<Fragment> := [];
    NumericTailStep(bits.data, bits.offset, remaining, done, spec);
    if remaining == 2 {
      var r := bits.ReadBits(7);
      if r.Err? {
        return Fail(r.error);
      }
      var twoDigitsBits := r.value;
      if twoDigitsBits >= 100 {
        return Fail(IllegalDigitGroup);
      }
      AppendPair(result, twoDigitsBits);
      last := PairText(twoDigitsBits);
    } else if remaining == 1 {
      var r := bits.ReadBits(4);
      if r.Err? {
        return Fail(r.error);
      }
      var digitBits := r.value;
      if digitBits >= 10 {
        return Fail(IllegalDigitGroup);
      }
      result.AppendTableEntry(digitBits);
      last := [DigitSymbol(digitBits)];
    }
    AppendAssoc(old(result.fragments), done, last);
    return Pass;
  }
}
