/** Bytes, big-endian 16-bit words and the byte-string operations shared by every module. */
module Bytes {
  type byte = bv8

  function High(word: bv16): byte {
    (word >> 8) as byte
  }

  function Low(word: bv16): byte {
    (word & 0xFF) as byte
  }

  function Word(high: byte, low: byte): bv16 {
    (high as bv16 << 8) | low as bv16
  }

  lemma WordInBits(high: byte, low: byte)
    ensures Word(high, low) == (high as bv16 << 8) | low as bv16
  {
  }

  /** Splitting a word into its two bytes loses nothing, in either direction. */
  lemma WordRoundTrip(word: bv16, high: byte, low: byte)
    ensures Word(High(word), Low(word)) == word
    ensures High(Word(high, low)) == high && Low(Word(high, low)) == low
  {
  }

  /** A byte with further bits set. */
  function Merge(b: byte, bits: byte): byte {
    b | bits
  }

  lemma MergeIntoZero(bits: byte)
    ensures Merge(0, bits) == bits
  {
  }

  /** A byte with the bits of an error pattern inverted. */
  function Flip(b: byte, error: byte): byte {
    b ^ error
  }

  function Xor(a: seq<byte>, b: seq<byte>): (r: seq<byte>)
    requires |a| == |b|
    ensures |r| == |a|
    ensures forall i :: 0 <= i < |a| ==> r[i] == Flip(a[i], b[i])
  {
    if a == [] then [] else [Flip(a[0], b[0])] + Xor(a[1..], b[1..])
  }

  /** A digit below 256 survives being stored in a byte. */
  lemma ByteOfDigit(digit: nat)
    requires digit < 256
    ensures (digit as byte) as nat == digit
  {
    RawByteOfDigit(digit, digit as byte);
  }

  lemma RawByteOfDigit(digit: nat, b: byte)
    requires digit < 256 && b == digit as byte
    ensures b as nat == digit
  {
    // the solver converts an integer to bits easily once its top three bits are fixed
    if digit < 32 {
      assert b as nat == digit;
    } else if digit < 64 {
      assert b as nat == digit;
    } else if digit < 96 {
      assert b as nat == digit;
    } else if digit < 128 {
      assert b as nat == digit;
    } else if digit < 160 {
      assert b as nat == digit;
    } else if digit < 192 {
      assert b as nat == digit;
    } else if digit < 224 {
      assert b as nat == digit;
    } else {
      assert b as nat == digit;
    }
  }

  lemma DivisionBy16Bits(value: nat, q: nat, r: nat)
    requires value == q * 0x1_0000 + r && r < 0x1_0000
    ensures value / 0x1_0000 == q
  {
  }

  lemma DivisionBy24Bits(value: nat, q: nat, r: nat)
    requires value == q * 0x100_0000 + r && r < 0x100_0000
    ensures value / 0x100_0000 == q
  {
  }

  lemma LastDigit(value: nat) returns (q: nat, r: nat)
    ensures q == value / 256 && r == value % 256 && value == q * 256 + r && r < 256
  {
    q, r := value / 256, value % 256;
  }

  /** The two lowest base-256 digits of a value and what is above them. */
  lemma LastTwoDigits(value: nat) returns (q: nat, r1: nat, r0: nat)
    ensures value == q * 0x1_0000 + r1 * 256 + r0 && r1 < 256 && r0 < 256
    ensures r0 == value % 256 && r1 == value / 256 % 256 && q == value / 0x1_0000
  {
    var q1: nat;
    q1, r0 := LastDigit(value);
    q, r1 := LastDigit(q1);
    DivisionBy16Bits(value, q, r1 * 256 + r0);
  }

  /** The three lowest base-256 digits of a value and what is above them. */
  lemma LastThreeDigits(value: nat) returns (q: nat, r2: nat, r1: nat, r0: nat)
    ensures value == q * 0x100_0000 + r2 * 0x1_0000 + r1 * 256 + r0 && r2 < 256 && r1 < 256 && r0 < 256
    ensures r0 == value % 256 && r1 == value / 256 % 256 && r2 == value / 0x1_0000 % 256 && q == value / 0x100_0000
  {
    var q2: nat;
    q2, r1, r0 := LastTwoDigits(value);
    q, r2 := LastDigit(q2);
    DivisionBy24Bits(value, q, r2 * 0x1_0000 + r1 * 256 + r0);
  }

  lemma SameByte(a: byte, b: byte)
    ensures a as int == b as int <==> a == b
  {
  }

  lemma SplitInThree<T>(s: seq<T>, i: nat, j: nat)
    requires i <= j <= |s|
    ensures s == s[..i] + s[i..j] + s[j..]
  {
  }

  /** An entry of a table. */
  function Lookup<K, V>(table: map<K, V>, key: K): V
    requires key in table
  {
    table[key]
  }

  /** How often a value occurs in a sequence. */
  ghost function Occurrences<T>(s: seq<T>, value: T): nat {
    multiset(s)[value]
  }

  lemma OccurrencesFirst<T>(s: seq<T>, value: T)
    ensures Occurrences([], value) == 0
    ensures s != [] ==> Occurrences(s, value) == Occurrences(s[1..], value) + if s[0] == value then 1 else 0
  {
    if s != [] {
      assert s == [s[0]] + s[1..];
      assert multiset(s) == multiset([s[0]]) + multiset(s[1..]);
    }
  }

  function Flatten<T>(parts: seq<seq<T>>): seq<T> {
    if parts == [] then [] else parts[0] + Flatten(parts[1..])
  }

  lemma {:induction false} FlattenConcat<T>(a: seq<seq<T>>, b: seq<seq<T>>)
    ensures Flatten(a + b) == Flatten(a) + Flatten(b)
  {
    if a == [] {
      assert a + b == b;
    } else {
      assert (a + b)[1..] == a[1..] + b;
      FlattenConcat(a[1..], b);
      assert a[0] + (Flatten(a[1..]) + Flatten(b)) == Flatten(a) + Flatten(b);
    }
  }
}
