/** decodeByteSegment: count raw 8-bit bytes, handed to the charset guessEncoding picks (ISO/IEC 18004:2006 section 6.4.5). */
module ByteSegment {
  import opened Results
  import opened BitStream
  import opened Text
  import opened Encoding

  /** The count bytes stored from bit position pos, each 8 bits most significant first. */
  function ReadBytes(data: seq<bool>, pos: nat, count: nat): (bs: seq<Byte>)
    requires pos + 8 * count <= |data|
    ensures |bs| == count
    ensures forall i :: 0 <= i < count ==> bs[i] == BitsValue(data, pos + 8 * i, 8)
  {
    Pow2Widths();
    seq(count, i requires 0 <= i < count => BitsValue(data, pos + 8 * i, 8))
  }

  /**
   * What decodeByteSegment appends for a count read at bit position pos, and where it leaves the
   * cursor: CountTooLarge, before any bits are read, when fewer than 8 * count bits remain;
   * otherwise the count bytes that follow, as one piece tagged with the charset guessEncoding picks.
   */
  function ByteSpec(data: seq<bool>, pos: nat, count: nat, assumeShiftJis: bool): (r: Result<Decoded>)
    requires pos <= |data|
    ensures r.Ok? ==> pos <= r.value.next <= |data|
  {
    if count * 8 > |data| - pos then Err(CountTooLarge)
    else
      var bs := ReadBytes(data, pos, count);
      Ok(Decoded([Encoded(GuessSpec(bs, assumeShiftJis), bs)], pos + 8 * count))
  }

  /**
   * A byte segment fails exactly when its bytes are not all there, and then with CountTooLarge; on
   * success it appends one piece of count bytes and consumes 8 * count bits.
   */
  lemma ByteShape(data: seq<bool>, pos: nat, count: nat, assumeShiftJis: bool)
    requires pos <= |data|
    ensures var r := ByteSpec(data, pos, count, assumeShiftJis);
      && (r.Ok? <==> pos + 8 * count <= |data|)
      && (r.Err? ==> r.error == CountTooLarge)
      && (r.Ok? ==> r.value.next == pos + 8 * count && |r.value.out| == 1 && |r.value.out[0].bytes| == count)
  {
  }

  /** The first byte read from pos, then the bytes read from 8 bits further on. */
  lemma ReadBytesCons(data: seq<bool>, pos: nat, count: nat)
    requires count > 0 && pos + 8 * count <= |data|
    ensures ReadBytes(data, pos, count) == [BitsValue(data, pos, 8)] + ReadBytes(data, pos + 8, count - 1)
  {
    var rest := ReadBytes(data, pos + 8, count - 1);
    forall i | 1 <= i < count
      ensures ReadBytes(data, pos, count)[i] == rest[i - 1]
    {
      assert pos + 8 * i == (pos + 8) + 8 * (i - 1);
    }
  }

  /** Reading the bit string of any byte array, wherever it sits in the stream, gives back those bytes. */
  lemma {:induction false} ReadBytesOfBits(data: seq<bool>, pos: nat, bs: seq<Byte>)
    requires pos + 8 * |bs| <= |data| && data[pos .. pos + 8 * |bs|] == BytesToBits(bs)
    ensures ReadBytes(data, pos, |bs|) == bs
    decreases |bs|
  {
    if bs != [] {
      Pow2Widths();
      SplitSlice(data, pos, ToBits(bs[0], 8), BytesToBits(bs[1..]));
      BitsValueOfToBits(data, pos, bs[0], 8);
      ReadBytesOfBits(data, pos + 8, bs[1..]);
      ReadBytesCons(data, pos, |bs|);
      assert bs == [bs[0]] + bs[1..];
    }
  }

  /** Byte segments round-trip: decoding a byte array's bits gives back the array, tagged with its guessed charset. */
  lemma ByteRoundTrip(data: seq<bool>, pos: nat, bs: seq<Byte>, assumeShiftJis: bool)
    requires pos + 8 * |bs| <= |data| && data[pos .. pos + 8 * |bs|] == BytesToBits(bs)
    ensures Yields(ByteSpec(data, pos, |bs|, assumeShiftJis), [Encoded(GuessSpec(bs, assumeShiftJis), bs)], pos + 8 * |bs|)
  {
    ReadBytesOfBits(data, pos, bs);
  }

  /** The bytes read from pos are the bits from pos, eight at a time. */
  lemma {:induction false} BitsOfReadBytes(data: seq<bool>, pos: nat, count: nat)
    requires pos + 8 * count <= |data|
    ensures BytesToBits(ReadBytes(data, pos, count)) == data[pos .. pos + 8 * count]
    decreases count
  {
    if count > 0 {
      var bs := ReadBytes(data, pos, count);
      ReadBytesCons(data, pos, count);
      assert bs[1..] == ReadBytes(data, pos + 8, count - 1);
      BitsOfReadBytes(data, pos + 8, count - 1);
      ToBitsOfBitsValue(data, pos, 8);
      JoinSlice(data, pos, pos + 8, pos + 8 * count);
    }
  }

  /** The converse: what a successful byte segment appends is exactly the bits it consumed. */
  lemma ByteDecodeEncode(data: seq<bool>, pos: nat, count: nat, assumeShiftJis: bool)
    requires pos <= |data| && ByteSpec(data, pos, count, assumeShiftJis).Ok?
    ensures var d := ByteSpec(data, pos, count, assumeShiftJis).value;
      data[pos .. d.next] == BytesToBits(d.out[0].bytes)
  {
    BitsOfReadBytes(data, pos, count);
  }

  /** A successful decode depends only on the bits up to where it stops. */
  lemma ByteAgrees(d1: seq<bool>, d2: seq<bool>, pos: nat, count: nat, assumeShiftJis: bool)
    requires pos <= |d1| && ByteSpec(d1, pos, count, assumeShiftJis).Ok?
    requires Agree(d1, d2, ByteSpec(d1, pos, count, assumeShiftJis).value.next)
    ensures pos <= |d2| && ByteSpec(d2, pos, count, assumeShiftJis) == ByteSpec(d1, pos, count, assumeShiftJis)
  {
    var k := pos + 8 * count;
    forall i | 0 <= i < count
      ensures BitsValue(d1, pos + 8 * i, 8) == BitsValue(d2, pos + 8 * i, 8)
    {
      ReadAgrees(d1, d2, k, pos + 8 * i, 8);
    }
    assert ReadBytes(d1, pos, count) == ReadBytes(d2, pos, count);
  }

  /**
   * decodeByteSegment: checks the count against the bits available, reads count bytes into a fresh
   * array, and appends them tagged with the charset guessEncoding picks; or reports CountTooLarge
   * with the cursor and the result untouched.
   */
  method DecodeByteSegment(bits: BitSource, result: TextBuffer, count: nat, assumeShiftJis: bool)
    returns (outcome: Outcome)
    requires bits.Valid()
    modifies bits, result
    ensures bits.Valid()
    ensures match ByteSpec(bits.data, old(bits.offset), count, assumeShiftJis)
      case Ok(d) => outcome == Pass && bits.offset == d.next && result.fragments == old(result.fragments) + d.out
      case Err(e) => outcome == Fail(e) && bits.offset == old(bits.offset) && result.fragments == old(result.fragments)
  {
    var readBytes := new Byte[count];
    if count * 8 > bits.Available() {
      return Fail(CountTooLarge);
    }
    ghost var start := bits.offset;
    ghost var bs := ReadBytes(bits.data, start, count);
    Pow2Widths();
    for i := 0 to count
      invariant bits.Valid() && bits.offset == start + 8 * i
      invariant result.fragments == old(result.fragments)
      invariant forall j :: 0 <= j < i ==> readBytes[j] == bs[j]
    {
      var r := bits.ReadBits(8);
      readBytes[i] := r.value;
    }
    assert readBytes[..] == bs;
    assert ByteSpec(bits.data, start, count, assumeShiftJis).value.out == [Encoded(GuessSpec(bs, assumeShiftJis), bs)];
    var encoding := GuessEncoding(readBytes, assumeShiftJis);
    result.Append(Encoded(encoding, readBytes[..]));
    return Pass;
  }
}
