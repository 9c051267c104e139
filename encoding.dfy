/** guessEncoding: the charset a byte segment is handed to, Shift_JIS or ISO-8859-1. */
module Encoding {
  import opened BitStream
  import opened Text

  /**
   * The test guessEncoding applies at index i, as written: bytes[i] lies in 0x80..0x9F and is not
   * the last byte, and the byte after it lies in 0x40..0x9E when bytes[i] is even, or in the range
   * "at least 0x9F and at most 0x7C" when bytes[i] is odd.
   */
  predicate LeadAndTrailAt(bytes: seq<Byte>, i: nat)
    requires i < |bytes|
  {
    var value := bytes[i];
    && value >= 0x80 && value <= 0x9F && i < |bytes| - 1
    && var nextValue := bytes[i + 1];
       if value % 2 == 0 then nextValue >= 0x40 && nextValue <= 0x9E
       else nextValue >= 0x9F && nextValue <= 0x7C
  }

  /** Shift_JIS when the platform flag says so or some index passes the test; ISO-8859-1 otherwise. */
  predicate SomeLeadAndTrail(bytes: seq<Byte>)
  {
    exists i :: 0 <= i < |bytes| && LeadAndTrailAt(bytes, i)
  }

  function GuessSpec(bytes: seq<Byte>, assumeShiftJis: bool): Charset
  {
    if assumeShiftJis || SomeLeadAndTrail(bytes) then ShiftJIS else ISO8859_1
  }

  /** An even byte in 0x80..0x9F followed by a byte in 0x40..0x9E. */
  predicate EvenLeadPair(lead: Byte, trail: Byte)
  {
    0x80 <= lead <= 0x9F && lead % 2 == 0 && 0x40 <= trail <= 0x9E
  }

  /** The odd-lead branch demands a trail byte both at least 0x9F and at most 0x7C, so it never holds. */
  lemma {:induction false} OddBranchDead(bytes: seq<Byte>, i: nat)
    requires i < |bytes| && bytes[i] % 2 == 1
    ensures !LeadAndTrailAt(bytes, i)
  {
    if i < |bytes| - 1 {
      var nextValue := bytes[i + 1];
      assert !(nextValue >= 0x9F && nextValue <= 0x7C);
    }
  }

  /** So the test at index i holds exactly for an even lead byte and its trail byte. */
  lemma LeadAndTrailIsEvenPair(bytes: seq<Byte>, i: nat)
    requires i < |bytes|
    ensures LeadAndTrailAt(bytes, i) <==> i + 1 < |bytes| && EvenLeadPair(bytes[i], bytes[i + 1])
  {
    if bytes[i] % 2 == 1 {
      OddBranchDead(bytes, i);
    }
  }

  /**
   * Without the platform flag, guessEncoding picks Shift_JIS exactly when some even byte in
   * 0x80..0x9F is followed by a byte in 0x40..0x9E.
   */
  lemma GuessCharacterization(bytes: seq<Byte>)
    ensures GuessSpec(bytes, false) == ShiftJIS
        <==> exists i :: 0 <= i < |bytes| - 1 && EvenLeadPair(bytes[i], bytes[i + 1])
  {
    if SomeLeadAndTrail(bytes) {
      var i :| 0 <= i < |bytes| && LeadAndTrailAt(bytes, i);
      LeadAndTrailIsEvenPair(bytes, i);
    }
    if exists i :: 0 <= i < |bytes| - 1 && EvenLeadPair(bytes[i], bytes[i + 1]) {
      var i :| 0 <= i < |bytes| - 1 && EvenLeadPair(bytes[i], bytes[i + 1]);
      LeadAndTrailIsEvenPair(bytes, i);
    }
  }

  /** With the platform flag set, the bytes are not looked at. */
  lemma AssumedShiftJis(bytes: seq<Byte>)
    ensures GuessSpec(bytes, true) == ShiftJIS
  {
  }

  /** The even lead byte 0x82 followed by 0x60 selects Shift_JIS. */
  lemma EvenLeadExample()
    ensures GuessSpec([0x82, 0x60], false) == ShiftJIS
  {
    assert LeadAndTrailAt([0x82, 0x60], 0);
  }

  /** The odd lead byte 0x81 followed by 0x40 falls through to ISO-8859-1. */
  lemma OddLeadExample()
    ensures GuessSpec([0x81, 0x40], false) == ISO8859_1
  {
    GuessCharacterization([0x81, 0x40]);
  }

  /** Bytes all below 0x80 select ISO-8859-1. */
  lemma AsciiIsLatin(bytes: seq<Byte>)
    requires forall i :: 0 <= i < |bytes| ==> bytes[i] < 0x80
    ensures GuessSpec(bytes, false) == ISO8859_1
  {
  }

  /** guessEncoding: a left-to-right scan that returns Shift_JIS at the first index passing the test. */
  method GuessEncoding(bytes: array<Byte>, assumeShiftJis: bool) returns (charset: Charset)
    ensures charset == GuessSpec(bytes[..], assumeShiftJis)
  {
    if assumeShiftJis {
      return ShiftJIS;
    }
    var length := bytes.Length;
    for i := 0 to length
      invariant forall j :: 0 <= j < i ==> !LeadAndTrailAt(bytes[..], j)
    {
      var value := bytes[i];
      if value >= 0x80 && value <= 0x9F && i < length - 1 {
        var nextValue := bytes[i + 1];
        if value % 2 == 0 {
          if nextValue >= 0x40 && nextValue <= 0x9E {
            assert LeadAndTrailAt(bytes[..], i);
            return ShiftJIS;
          }
        } else {
          if nextValue >= 0x9F && nextValue <= 0x7C {
            return ShiftJIS;
          }
        }
      }
    }
    return ISO8859_1;
  }
}
