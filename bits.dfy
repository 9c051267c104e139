/** The bit cursor the decoder reads from: a bit string consumed most significant bit first. */
module BitStream {
  import opened Results

  /** An unsigned 8-bit value (the decoder masks every signed Java byte with 0xFF before using it). */
  type Byte = x: int | 0 <= x < 256

  function Pow2(n: nat): (r: nat)
    ensures r >= 1
  {
    if n == 0 then 1 else 2 * Pow2(n - 1)
  }

  /** The unsigned integer the n bits of data starting at pos spell, most significant bit first. */
  function BitsValue(data: seq<bool>, pos: nat, n: nat): (r: nat)
    requires pos + n <= |data|
    ensures r < Pow2(n)
    decreases n, pos
  {
    if n == 0 then 0 else 2 * BitsValue(data, pos, n - 1) + (if data[pos + n - 1] then 1 else 0)
  }

  /** The n low bits of v, most significant first. */
  function ToBits(v: nat, n: nat): (s: seq<bool>)
    ensures |s| == n
    decreases n, v
  {
    if n == 0 then [] else ToBits(v / 2, n - 1) + [v % 2 == 1]
  }

  /** Where data holds the n-bit form of a value that fits in n bits, those bits spell the value. */
  lemma {:induction false} BitsValueOfToBits(data: seq<bool>, pos: nat, v: nat, n: nat)
    requires v < Pow2(n) && pos + n <= |data| && data[pos .. pos + n] == ToBits(v, n)
    ensures BitsValue(data, pos, n) == v
    decreases n
  {
    if n > 0 {
      var h := v / 2;
      assert v == 2 * h + v % 2;
      assert h < Pow2(n - 1);
      assert data[pos .. pos + n - 1] == data[pos .. pos + n][..n - 1];
      assert data[pos + n - 1] == data[pos .. pos + n][n - 1];
      BitsValueOfToBits(data, pos, h, n - 1);
    }
  }

  /** Every run of n bits is the n-bit form of the value it spells. */
  lemma {:induction false} ToBitsOfBitsValue(data: seq<bool>, pos: nat, n: nat)
    requires pos + n <= |data|
    ensures ToBits(BitsValue(data, pos, n), n) == data[pos .. pos + n]
    decreases n
  {
    if n > 0 {
      var v := BitsValue(data, pos, n);
      var h := BitsValue(data, pos, n - 1);
      ToBitsOfBitsValue(data, pos, n - 1);
      assert v / 2 == h && (v % 2 == 1) == data[pos + n - 1];
      assert data[pos .. pos + n] == data[pos .. pos + n - 1] + [data[pos + n - 1]];
    }
  }

  /** The bits a value spells depend on those bits alone. */
  lemma {:induction false} BitsValueSame(d1: seq<bool>, d2: seq<bool>, pos: nat, n: nat)
    requires pos + n <= |d1| && pos + n <= |d2|
    requires forall i :: pos <= i < pos + n ==> d1[i] == d2[i]
    ensures BitsValue(d1, pos, n) == BitsValue(d2, pos, n)
    decreases n
  {
    if n > 0 {
      BitsValueSame(d1, d2, pos, n - 1);
    }
  }

  lemma Pow2Widths()
    ensures Pow2(4) == 16 && Pow2(6) == 64 && Pow2(7) == 128 && Pow2(8) == 256
    ensures Pow2(10) == 1024 && Pow2(11) == 2048 && Pow2(13) == 8192
  {
  }

  /** The bit string a byte array holds, each byte most significant bit first. */
  function BytesToBits(bytes: seq<Byte>): (s: seq<bool>)
    ensures |s| == 8 * |bytes|
  {
    if bytes == [] then [] else ToBits(bytes[0], 8) + BytesToBits(bytes[1..])
  }

  /** Byte i of an array occupies bits 8*i to 8*i + 8 of its bit string. */
  lemma {:induction false} BytesToBitsAt(bytes: seq<Byte>, i: nat)
    requires i < |bytes|
    ensures BytesToBits(bytes)[8 * i .. 8 * i + 8] == ToBits(bytes[i], 8)
  {
    if i > 0 {
      BytesToBitsAt(bytes[1..], i - 1);
      assert BytesToBits(bytes)[8 * i .. 8 * i + 8] == BytesToBits(bytes[1..])[8 * (i - 1) .. 8 * (i - 1) + 8];
    }
  }

  /** Reading n bits at bit position pos: their value, or NotEnoughBits when fewer than n remain. */
  function Read(data: seq<bool>, pos: nat, n: nat): (r: Result<nat>)
    ensures r.Ok? <==> pos + n <= |data|
    ensures r.Ok? ==> r.value < Pow2(n)
  {
    if pos + n <= |data| then Ok(BitsValue(data, pos, n)) else Err(NotEnoughBits)
  }

  /** Two bit strings that agree on their first k bits (and have at least k bits each). */
  ghost predicate Agree(d1: seq<bool>, d2: seq<bool>, k: nat)
  {
    k <= |d1| && k <= |d2| && d1[..k] == d2[..k]
  }

  /** A read that ends within the bits two strings share sees the same value in both. */
  lemma ReadAgrees(d1: seq<bool>, d2: seq<bool>, k: nat, pos: nat, n: nat)
    requires Agree(d1, d2, k) && pos + n <= k
    ensures Read(d2, pos, n) == Read(d1, pos, n)
  {
    forall i | pos <= i < pos + n
      ensures d1[i] == d2[i]
    {
      assert d1[i] == d1[..k][i] && d2[i] == d2[..k][i];
    }
    BitsValueSame(d1, d2, pos, n);
  }

  lemma AgreeShrink(d1: seq<bool>, d2: seq<bool>, k: nat, j: nat)
    requires Agree(d1, d2, k) && j <= k
    ensures Agree(d1, d2, j)
  {
    assert d1[..j] == d1[..k][..j];
    assert d2[..j] == d2[..k][..j];
  }

  /** A stretch of the stream holding x + y holds x and then y. */
  lemma SplitSlice(data: seq<bool>, pos: nat, x: seq<bool>, y: seq<bool>)
    requires pos + |x| + |y| <= |data| && data[pos .. pos + |x| + |y|] == x + y
    ensures data[pos .. pos + |x|] == x
    ensures data[pos + |x| .. pos + |x| + |y|] == y
  {
    assert data[pos .. pos + |x|] == data[pos .. pos + |x| + |y|][..|x|];
    assert data[pos + |x| .. pos + |x| + |y|] == data[pos .. pos + |x| + |y|][|x|..];
  }

  /** The stretch from i to k is the stretch from i to j followed by the one from j to k. */
  lemma JoinSlice(data: seq<bool>, i: nat, j: nat, k: nat)
    requires i <= j <= k <= |data|
    ensures data[i .. k] == data[i .. j] + data[j .. k]
  {
  }

  /** A string made of the bits from i to j, then those from j to k, is the bits from i to k. */
  lemma JoinParts(whole: seq<bool>, head: seq<bool>, tail: seq<bool>, data: seq<bool>, i: nat, j: nat, k: nat, end: nat)
    requires i <= j <= k <= |data| && k == end
    requires head == data[i .. j] && tail == data[j .. k] && whole == head + tail
    ensures whole == data[i .. end]
  {
    JoinSlice(data, i, j, k);
  }

  /** A stream that is a followed by b, c and d holds each of them at its own offset. */
  lemma FourParts(data: seq<bool>, a: seq<bool>, b: seq<bool>, c: seq<bool>, d: seq<bool>)
    requires data == a + b + c + d
    ensures |data| == |a| + |b| + |c| + |d|
    ensures data[0 .. |a|] == a
    ensures data[|a| .. |a| + |b|] == b
    ensures data[|a| + |b| .. |a| + |b| + |c|] == c
    ensures data[|a| + |b| + |c| .. |a| + |b| + |c| + |d|] == d
  {
  }

  /** One more bit at least doubles the value read. */
  lemma BitsValueGrows(data: seq<bool>, pos: nat, n: nat)
    requires pos + n + 1 <= |data|
    ensures BitsValue(data, pos, n + 1) >= 2 * BitsValue(data, pos, n)
  {
  }

  /** Reading n bits where the stream holds the n-bit form of v gives v. */
  lemma ReadSlice(data: seq<bool>, pos: nat, v: nat, n: nat)
    requires v < Pow2(n) && pos + n <= |data| && data[pos .. pos + n] == ToBits(v, n)
    ensures Read(data, pos, n) == Ok(v)
  {
    BitsValueOfToBits(data, pos, v, n);
  }

  /**
   * The cursor over a byte array: the bits it holds and how many of them have been read.
   * Reads either return the next n bits as an unsigned value and advance, or fail.
   */
  class BitSource {
    const data: seq<bool>
    var offset: nat

    ghost predicate Valid()
      reads this
    {
      offset <= |data|
    }

    constructor (bytes: seq<Byte>)
      ensures Valid() && data == BytesToBits(bytes) && offset == 0
    {
      data := BytesToBits(bytes);
      offset := 0;
    }

    /** The number of bits not yet read. */
    function Available(): (r: nat)
      reads this
      requires Valid()
      ensures offset + r == |data|
    {
      |data| - offset
    }

    /** readBits(n): the next n bits (at most 32); the cursor moves only when the read succeeds. */
    method ReadBits(n: nat) returns (r: Result<nat>)
      requires Valid() && n <= 32
      modifies this
      ensures Valid()
      ensures r == Read(data, old(offset), n)
      ensures offset == if r.Ok? then old(offset) + n else old(offset)
    {
      r := Read(data, offset, n);
      if r.Ok? {
        offset := offset + n;
      }
    }
  }
}
