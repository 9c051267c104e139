/** What the decoder appends to its result, and the alphanumeric symbol table both text decoders index. */
module Text {
  import opened Results
  import opened BitStream

  /** The two text encodings the decoder hands byte and Kanji segments to. */
  datatype Charset = ShiftJIS | ISO8859_1

  /**
   * One appended piece of the result: a single character (numeric and alphanumeric segments append
   * these one at a time), or a raw byte array with the charset it must be decoded with (byte and
   * Kanji segments append one of these per segment).
   */
  datatype Fragment = Symbol(c: char) | Encoded(charset: Charset, bytes: seq<Byte>)

  /** What one segment decoder produced and the bit position it left the cursor at. */
  datatype Decoded = Decoded(out: seq<Fragment>, next: nat)

  /** Table 5 of ISO/IEC 18004:2006 section 6.4.4: digits, upper-case letters, then nine symbols. */
  const AlphanumericChars: seq<char> := "0123456789" + "ABCDEFGHIJKLMNOPQRSTUVWXYZ" + " $%*+-./:"

  /** A position in the alphanumeric table. */
  type Index = i: nat | i < 45

  /** A decimal digit value, which is also its own position in the table. */
  type Digit = d: nat | d < 10

  /**
   * Entry i of the table, by its ranges: the digits, then the letters in alphabetical order, then the
   * nine symbols. AlphanumericCharIsTableEntry shows this is the table.
   */
  function AlphanumericChar(i: Index): char
  {
    if i < 10 then ('0' as int + i) as char
    else if i < 36 then ('A' as int + (i - 10)) as char
    else if i == 36 then ' ' else if i == 37 then '$' else if i == 38 then '%' else if i == 39 then '*'
    else if i == 40 then '+' else if i == 41 then '-' else if i == 42 then '.' else if i == 43 then '/' else ':'
  }

  lemma AlphanumericCharIsTableEntry(i: Index)
    ensures AlphanumericChars[i] == AlphanumericChar(i)
  {
    var digits, letters, symbols := "0123456789", "ABCDEFGHIJKLMNOPQRSTUVWXYZ", " $%*+-./:";
    assert AlphanumericChars == digits + letters + symbols;
    if i < 10 {
      assert AlphanumericChars[i] == digits[i];
      assert forall k :: 0 <= k < 10 ==> digits[k] as int == '0' as int + k;
    } else if i < 36 {
      assert AlphanumericChars[i] == letters[i - 10];
      assert forall k :: 0 <= k < 26 ==> letters[k] as int == 'A' as int + k;
    } else {
      assert AlphanumericChars[i] == symbols[i - 36];
    }
  }

  /** Prefixing the output of a successful decoder; an error passes through unchanged. */
  function Prepend(prefix: seq<Fragment>, r: Result<Decoded>): Result<Decoded>
  {
    match r
    case Ok(d) => Ok(Decoded(prefix + d.out, d.next))
    case Err(e) => Err(e)
  }

  lemma PrependNothing(r: Result<Decoded>)
    ensures Prepend([], r) == r
  {
    if r.Ok? {
      assert [] + r.value.out == r.value.out;
    }
  }

  /** A decoder result that succeeded with output out and stopped at bit position next. */
  predicate Yields(r: Result<Decoded>, out: seq<Fragment>, next: nat)
  {
    r.Ok? && r.value.out == out && r.value.next == next
  }

  lemma PrependYields(prefix: seq<Fragment>, r: Result<Decoded>, out: seq<Fragment>, next: nat)
    requires Yields(r, out, next)
    ensures Yields(Prepend(prefix, r), prefix + out, next)
  {
  }

  lemma PrependTwice(a: seq<Fragment>, b: seq<Fragment>, r: Result<Decoded>)
    ensures Prepend(a, Prepend(b, r)) == Prepend(a + b, r)
  {
    if r.Ok? {
      assert a + (b + r.value.out) == (a + b) + r.value.out;
    }
  }

  lemma AppendAssoc(a: seq<Fragment>, b: seq<Fragment>, c: seq<Fragment>)
    ensures a + b + c == a + (b + c)
  {
  }

  /** Two single appends add the pair [a, b]. */
  lemma AppendTwo(s: seq<Fragment>, a: Fragment, b: Fragment)
    ensures s + [a] + [b] == s + [a, b]
  {
  }

  /** Three single appends add the triple [a, b, c]. */
  lemma AppendThree(s: seq<Fragment>, a: Fragment, b: Fragment, c: Fragment)
    ensures s + [a] + [b] + [c] == s + [a, b, c]
  {
  }

  /** The StringBuffer a decode call appends to. */
  class TextBuffer {
    var fragments: seq<Fragment>

    constructor ()
      ensures fragments == []
    {
      fragments := [];
    }

    method Append(f: Fragment)
      modifies this
      ensures fragments == old(fragments) + [f]
    {
      fragments := fragments + [f];
    }

    /** append(ALPHANUMERIC_CHARS[i]): appends the table's entry i. */
    method AppendTableEntry(i: Index)
      modifies this
      ensures fragments == old(fragments) + [Symbol(AlphanumericChar(i))]
    {
      AlphanumericCharIsTableEntry(i);
      Append(Symbol(AlphanumericChars[i]));
    }
  }
}
