/**
 * The ISO (Fletcher) checksum of the strict CCSDS packets: the chunked accumulation with deferred
 * reduction, the plain sums it stands for, and the corruption it detects.
 *
 * The code's unsigned words are natural numbers here; every intermediate value is proved to fit them.
 */
module IsoChecksum {
  import opened Bytes

  const CHUNK_SIZE := 20

  // ---------------------------------------------------------------- the plain sums

  function Sum(data: seq<byte>): nat {
    if data == [] then 0 else data[0] as nat + Sum(data[1..])
  }

  /** Each byte counted once for itself and once for every byte after it. */
  function WeightedSum(data: seq<byte>): nat {
    if data == [] then 0 else |data| * data[0] as nat + WeightedSum(data[1..])
  }

  lemma {:induction false} SumAppend(a: seq<byte>, b: seq<byte>)
    ensures Sum(a + b) == Sum(a) + Sum(b)
  {
    if a == [] {
      assert a + b == b;
    } else {
      assert (a + b)[1..] == a[1..] + b;
      SumAppend(a[1..], b);
    }
  }

  lemma Distribute(factor: nat, a: nat, b: nat)
    ensures (a + b) * factor == a * factor + b * factor
    ensures factor * (a + b) == factor * a + factor * b
  {
  }

  lemma {:induction false} WeightedSumAppend(a: seq<byte>, b: seq<byte>)
    ensures WeightedSum(a + b) == WeightedSum(a) + |b| * Sum(a) + WeightedSum(b)
  {
    if a == [] {
      assert a + b == b;
    } else {
      assert (a + b)[1..] == a[1..] + b;
      WeightedSumAppend(a[1..], b);
      Distribute(a[0] as nat, |a|, |b|);
      Distribute(|b|, a[0] as nat, Sum(a[1..]));
    }
  }

  lemma SumsOfLast(data: seq<byte>, b: byte)
    ensures Sum(data + [b]) == Sum(data) + b as nat
    ensures WeightedSum(data + [b]) == WeightedSum(data) + Sum(data + [b])
    ensures Sum([]) == 0 && WeightedSum([]) == 0
  {
    SumAppend(data, [b]);
    WeightedSumAppend(data, [b]);
    assert Sum([b]) == b as nat && WeightedSum([b]) == b as nat;
  }

  // ---------------------------------------------------------------- deferred reduction

  /** Adds the part above the low byte to the low byte, which keeps the value modulo 255. */
  function Reduce(x: nat): nat {
    x % 256 + x / 256
  }

  predicate Congruent(a: int, b: int) {
    a % 255 == b % 255
  }

  lemma CongruentSums(a: int, b: int, c: int, d: int)
    requires Congruent(a, b) && Congruent(c, d)
    ensures Congruent(a + c, b + d)
  {
  }

  lemma CongruentChain(a: int, b: int, c: int)
    requires Congruent(a, b) && Congruent(b, c)
    ensures Congruent(a, c)
  {
  }

  lemma ReduceKeepsResidue(x: nat)
    ensures Congruent(Reduce(x), x)
  {
    var q, r := x / 256, x % 256;
    assert x == 255 * q + (q + r);
  }

  /** The representative from 1 to 255 of a value modulo 255. */
  function Residue(x: nat): (r: nat)
    ensures 1 <= r <= 255 && Congruent(r, x)
  {
    if x % 255 == 0 then 255 else x % 255
  }

  lemma ResidueIs(r: nat, x: nat)
    requires 1 <= r <= 255 && Congruent(r, x)
    ensures r == Residue(x)
  {
  }

  /** The largest value the second sum can reach `count` bytes into a chunk. */
  function Bound(count: nat): nat {
    if count == 0 then 486 else Bound(count - 1) + 275 + 255 * count
  }

  lemma {:induction false} BoundGrows(count: nat, limit: nat)
    requires count <= limit
    ensures Bound(count) <= Bound(limit)
    decreases limit
  {
    if count < limit {
      BoundGrows(count, limit - 1);
    }
  }

  lemma BoundOfChunk()
    ensures Bound(CHUNK_SIZE) == 59536
  {
    assert Bound(5) == 5686;
    assert Bound(10) == 17261;
    assert Bound(15) == 35211;
  }

  lemma BoundNext(count: nat)
    ensures Bound(count + 1) == Bound(count) + 275 + 255 * (count + 1)
  {
  }

  /** After a reduction at most 275 and 486 remain, and a second reduction leaves a byte. */
  lemma ReducedSumsAreSmall(sum1: nat, sum2: nat)
    requires 0 < sum1 <= 5375 && 0 < sum2 <= 59536
    ensures 0 < Reduce(sum1) <= 275 && 0 < Reduce(sum2) <= 486
    ensures sum1 <= 275 ==> Reduce(sum1) <= 255
    ensures sum2 <= 486 ==> Reduce(sum2) <= 255
  {
    if sum1 <= 275 {
      assert sum1 / 256 <= 1;
    }
    if sum2 <= 486 {
      assert sum2 / 256 <= 1;
    }
  }

  /** The two running sums after adding `bytes` to them one by one. */
  function Accumulate(sum1: nat, sum2: nat, bytes: seq<byte>): (sums: (nat, nat))
    decreases |bytes|
  {
    if bytes == [] then (sum1, sum2)
    else AddByte(Accumulate(sum1, sum2, bytes[..|bytes| - 1]), bytes[|bytes| - 1])
  }

  function AddByte(sums: (nat, nat), b: byte): (nat, nat) {
    (sums.0 + b as nat, sums.1 + (sums.0 + b as nat))
  }

  lemma {:induction false} AccumulateIsBounded(sum1: nat, sum2: nat, bytes: seq<byte>)
    requires 0 < sum1 <= 275 && 0 < sum2 <= 486
    ensures var sums := Accumulate(sum1, sum2, bytes);
            0 < sums.0 <= 275 + 255 * |bytes| && 0 < sums.1 <= Bound(|bytes|)
    decreases |bytes|
  {
    if bytes != [] {
      AccumulateIsBounded(sum1, sum2, bytes[..|bytes| - 1]);
      BoundNext(|bytes| - 1);
    }
  }

  /**
   * From reduced sums, the running sums stay within 16 bits at every point of a chunk, a reduction brings
   * them back under the same limits, and one more reduction then leaves a byte.
   */
  lemma RunningSumsFit(sum1: nat, sum2: nat, bytes: seq<byte>)
    requires 0 < sum1 <= 275 && 0 < sum2 <= 486 && |bytes| <= CHUNK_SIZE
    ensures var sums := Accumulate(sum1, sum2, bytes);
            && 0 < sums.0 <= 5375 && 0 < sums.1 <= 59536
            && 0 < Reduce(sums.0) <= 275 && 0 < Reduce(sums.1) <= 486
            && 0 < Reduce(Reduce(sums.0)) <= 255 && 0 < Reduce(Reduce(sums.1)) <= 255
  {
    hide Reduce, Accumulate, Bound;
    var sums := Accumulate(sum1, sum2, bytes);
    AccumulateIsBounded(sum1, sum2, bytes);
    BoundOfChunk();
    BoundGrows(|bytes|, CHUNK_SIZE);
    ReducedSumsAreSmall(sums.0, sums.1);
    ReducedSumsAreSmall(Reduce(sums.0), Reduce(sums.1));
  }

  /** Both sums as representatives from 1 to 255, packed into 16 bits. */
  function Fletcher(data: seq<byte>): nat {
    Residue(WeightedSum(data)) * 256 + Residue(Sum(data))
  }

  /**
   * The chunked accumulation computes the two plain sums modulo 255. By RunningSumsFit its unsigned words
   * never wrap, and the final reductions each leave one byte.
   */
  method Fletcher16(data: array<byte>, length: nat) returns (sum: nat)
    requires length <= data.Length
    ensures sum == Fletcher(data[..length])
  {
    hide Sum, WeightedSum, Reduce, Residue, Congruent, Accumulate;
    var sum1: nat, sum2: nat, dataLength: nat, it: nat := 0xFF, 0xFF, length, 0;
    SumsOfNothing();
    assert data[..0] == [];
    while dataLength > 0
      invariant it + dataLength == length
      invariant 0 < sum1 <= 275 && 0 < sum2 <= 486
      invariant Congruent(sum1, Sum(data[..it])) && Congruent(sum2, WeightedSum(data[..it]))
    {
      var chunkLength: nat := if dataLength > CHUNK_SIZE then CHUNK_SIZE else dataLength;
      dataLength := dataLength - chunkLength;
      ghost var start1, start2, from := sum1, sum2, it;
      AccumulateNothing(sum1, sum2);
      assert data[it..it] == [];
      while chunkLength > 0
        invariant it + chunkLength + dataLength == length && from <= it && it - from + chunkLength <= CHUNK_SIZE
        invariant (sum1, sum2) == Accumulate(start1, start2, data[from..it])
        invariant sum1 <= 5375 && sum2 <= 59536
        invariant Congruent(sum1, Sum(data[..it])) && Congruent(sum2, WeightedSum(data[..it]))
      {
        ghost var b := data[it];
        assert data[..it + 1] == data[..it] + [b];
        assert data[from..it + 1] == data[from..it] + [b];
        SumsStayCongruent(sum1, sum2, data[..it], b);
        AccumulateLast(start1, start2, data[from..it], b);
        RunningSumsFit(start1, start2, data[from..it + 1]);
        sum1 := sum1 + data[it] as nat;
        it := it + 1;
        sum2 := sum2 + sum1;
        chunkLength := chunkLength - 1;
      }
      RunningSumsFit(start1, start2, data[from..it]);
      ReduceKeepsResidue(sum1);
      ReduceKeepsResidue(sum2);
      CongruentChain(Reduce(sum1), sum1, Sum(data[..it]));
      CongruentChain(Reduce(sum2), sum2, WeightedSum(data[..it]));
      sum1 := Reduce(sum1);
      sum2 := Reduce(sum2);
    }
    assert it == length;
    ReducedSumsAreSmall(sum1, sum2);
    ReduceKeepsResidue(sum1);
    ReduceKeepsResidue(sum2);
    CongruentChain(Reduce(sum1), sum1, Sum(data[..length]));
    CongruentChain(Reduce(sum2), sum2, WeightedSum(data[..length]));
    ResidueIs(Reduce(sum1), Sum(data[..length]));
    ResidueIs(Reduce(sum2), WeightedSum(data[..length]));
    sum := Reduce(sum2) * 256 + Reduce(sum1);
  }

  lemma AccumulateNothing(sum1: nat, sum2: nat)
    ensures Accumulate(sum1, sum2, []) == (sum1, sum2)
  {
  }

  lemma AccumulateLast(sum1: nat, sum2: nat, bytes: seq<byte>, b: byte)
    ensures Accumulate(sum1, sum2, bytes + [b]) == AddByte(Accumulate(sum1, sum2, bytes), b)
  {
    hide AddByte;
    var all := bytes + [b];
    assert all[..|all| - 1] == bytes && all[|all| - 1] == b;
  }

  lemma SumsStayCongruent(sum1: nat, sum2: nat, data: seq<byte>, b: byte)
    requires Congruent(sum1, Sum(data)) && Congruent(sum2, WeightedSum(data))
    ensures Congruent(sum1 + b as nat, Sum(data + [b]))
    ensures Congruent(sum2 + (sum1 + b as nat), WeightedSum(data + [b]))
  {
    hide Sum, WeightedSum, Congruent;
    SumsOfLast(data, b);
    SameCongruent(b as int);
    CongruentSums(sum1, Sum(data), b as int, b as int);
    CongruentSums(sum2, WeightedSum(data), sum1 + b as int, Sum(data + [b]));
  }

  lemma SumsOfNothing()
    ensures Congruent(0xFF, Sum([])) && Congruent(0xFF, WeightedSum([]))
  {
  }

  lemma SameCongruent(a: int)
    ensures Congruent(a, a)
  {
  }

  // ---------------------------------------------------------------- the checksum

  function CheckHigh(data: seq<byte>): (c: nat)
    ensures 1 <= c <= 255
  {
    255 - (Sum(data) + WeightedSum(data)) % 255
  }

  function CheckLow(data: seq<byte>): (c: nat)
    ensures 1 <= c <= 255
  {
    255 - (Sum(data) + CheckHigh(data)) % 255
  }

  /** The checksum word of a block: the two check bytes that follow it in a packet. */
  method Calculate(data: array<byte>, length: nat) returns (checksum: nat)
    requires length <= data.Length
    ensures checksum == CheckHigh(data[..length]) * 256 + CheckLow(data[..length])
  {
    var sum := Fletcher16(data, length);
    ghost var s1, s2 := Sum(data[..length]), WeightedSum(data[..length]);
    hide Sum, WeightedSum, Residue;
    var f0, f1 := sum % 256, sum / 256 % 256;
    assert f0 == Residue(s1) && f1 == Residue(s2);
    CongruentSums(f0, s1, f1, s2);
    var c0 := 255 - (f0 + f1) % 255;
    SameCongruent(c0);
    CongruentSums(f0, s1, c0, c0);
    var c1 := 255 - (f0 + c0) % 255;
    checksum := c0 * 256 + c1;
  }

  /** Both sums of the block vanish modulo 255. */
  predicate HasZeroResidue(data: seq<byte>) {
    Congruent(Sum(data), 0) && Congruent(WeightedSum(data), 0)
  }

  /** The low byte holds the plain sum and the high byte the weighted one, each as a value from 1 to 255. */
  lemma FletcherWord(data: seq<byte>)
    ensures var word := Fletcher(data);
            && 1 <= word % 256 <= 255 && 1 <= word / 256 <= 255
            && word % 256 % 255 == Sum(data) % 255 && word / 256 % 255 == WeightedSum(data) % 255
  {
    hide Sum, WeightedSum;
  }

  lemma ZeroResidueIsAllOnes(data: seq<byte>)
    ensures Fletcher(data) == 0xFFFF <==> HasZeroResidue(data)
  {
    hide Sum, WeightedSum;
  }

  lemma SumsWithCheckBytes(data: seq<byte>, high: byte, low: byte)
    ensures Sum(data + [high, low]) == Sum(data) + high as nat + low as nat
    ensures WeightedSum(data + [high, low])
         == WeightedSum(data) + 2 * Sum(data) + 2 * high as nat + low as nat
  {
    hide Sum, WeightedSum;
    assert data + [high, low] == (data + [high]) + [low];
    SumsOfLast(data, high);
    SumsOfLast(data + [high], low);
  }

  /** The residues vanish for exactly one pair of values from 1 to 255. */
  lemma CheckBytesSolve(s1: nat, s2: nat, c0: nat, c1: nat)
    requires 1 <= c0 <= 255 && 1 <= c1 <= 255
    ensures Congruent(s1 + c0 + c1, 0) && Congruent(s2 + 2 * s1 + 2 * c0 + c1, 0)
       <==> c0 == 255 - (s1 + s2) % 255 && c1 == 255 - (s1 + c0) % 255
  {
    hide Congruent;
    NegatedResidue(s1 + s2, c0);
    NegatedResidue(s1 + c0, c1);
    SumsVanishTogether(s1 + s2 + c0, s1 + c0 + c1);
  }

  /** A value from 1 to 255 brings a sum to zero modulo 255 exactly when it is what the sum lacks. */
  lemma NegatedResidue(x: nat, c: nat)
    requires 1 <= c <= 255
    ensures Congruent(x + c, 0) <==> c == 255 - x % 255
  {
  }

  lemma SumsVanishTogether(a: nat, b: nat)
    ensures Congruent(b, 0) ==> (Congruent(a, 0) <==> Congruent(a + b, 0))
  {
  }

  lemma CheckBytesAreTheSolution(data: seq<byte>, c0: nat, c1: nat)
    requires 1 <= c0 <= 255 && 1 <= c1 <= 255
    ensures Congruent(Sum(data) + c0 + c1, 0) && Congruent(WeightedSum(data) + 2 * Sum(data) + 2 * c0 + c1, 0)
       <==> c0 == CheckHigh(data) && c1 == CheckLow(data)
  {
    hide Sum, WeightedSum, Congruent;
    CheckBytesSolve(Sum(data), WeightedSum(data), c0, c1);
  }

  lemma ZeroByte(a: byte)
    ensures a as int == 0 <==> a == 0x00
  {
  }

  /**
   * Two trailing bytes are the checksum of the block in front of them exactly when both are non-zero and
   * the sums of the whole vanish modulo 255.
   */
  lemma ChecksumIsZeroResidue(data: seq<byte>, high: byte, low: byte)
    ensures high as nat == CheckHigh(data) && low as nat == CheckLow(data)
       <==> high != 0 && low != 0 && HasZeroResidue(data + [high, low])
  {
    hide Sum, WeightedSum, Congruent, CheckHigh, CheckLow;
    ZeroByte(high);
    ZeroByte(low);
    SumsWithCheckBytes(data, high, low);
    if high != 0 && low != 0 {
      CheckBytesAreTheSolution(data, high as nat, low as nat);
    }
  }

  // ---------------------------------------------------------------- corruption of adjacent bytes

  /** The only change a byte can undergo unnoticed: none, or between the two values that are 0 modulo 255. */
  predicate IsZeroSwap(a: byte, b: byte) {
    a == b || (a == 0x00 && b == 0xFF) || (a == 0xFF && b == 0x00)
  }

  lemma AllOnesByte(a: byte)
    ensures a as int == 255 <==> a == 0xFF
  {
  }

  lemma CongruentBytes(a: int, b: int)
    requires 0 <= a <= 255 && 0 <= b <= 255
    ensures Congruent(a, b) <==> a == b || (a == 0 && b == 255) || (a == 255 && b == 0)
  {
  }

  lemma ZeroSwapIsCongruent(a: byte, b: byte)
    ensures Congruent(a as int, b as int) <==> IsZeroSwap(a, b)
  {
    hide Congruent;
    assert 0 <= a as int <= 255 && 0 <= b as int <= 255;
    CongruentBytes(a as int, b as int);
    SameByte(a, b);
    ZeroByte(a);
    ZeroByte(b);
    AllOnesByte(a);
    AllOnesByte(b);
  }

  /** The sums of a block without the contribution of the two bytes between `before` and `after`. */
  function BaseSum(before: seq<byte>, after: seq<byte>): nat {
    Sum(before) + Sum(after)
  }

  function BaseWeightedSum(before: seq<byte>, after: seq<byte>): nat {
    WeightedSum(before) + 2 * Sum(before) + |after| * Sum(before) + WeightedSum(after)
  }

  function PairWeight(n: nat, u: nat, v: nat): nat {
    u + (1 + n) * (u + v)
  }

  lemma SumsAroundPair(before: seq<byte>, u: byte, v: byte, after: seq<byte>)
    ensures Sum(before + [u, v] + after) == BaseSum(before, after) + (u as nat + v as nat)
    ensures WeightedSum(before + [u, v] + after)
         == BaseWeightedSum(before, after) + PairWeight(|after|, u as nat, v as nat)
  {
    hide Sum, WeightedSum;
    SumsWithCheckBytes(before, u, v);
    SumAppend(before + [u, v], after);
    WeightedSumAppend(before + [u, v], after);
    GatherPair(WeightedSum(before), Sum(before), |after|, u as nat, v as nat);
  }

  lemma GatherPair(w: nat, s: nat, n: nat, u: nat, v: nat)
    ensures (w + 2 * s + 2 * u + v) + n * (s + u + v) == w + 2 * s + n * s + PairWeight(n, u, v)
  {
    Distribute(n, s, u + v);
    Distribute(u + v, 1, n);
  }

  /** Equal sums leave both bytes of a pair unchanged modulo 255. */
  lemma PairIsCongruent(s: nat, t: nat, n: nat, u: nat, v: nat, u': nat, v': nat)
    requires Congruent(s + (u + v), 0) && Congruent(s + (u' + v'), 0)
    requires Congruent(t + PairWeight(n, u, v), 0) && Congruent(t + PairWeight(n, u', v'), 0)
    ensures Congruent(u, u') && Congruent(v, v')
  {
    var j, k := (s + (u + v)) / 255, (s + (u' + v')) / 255;
    var m, l := (t + (u + (1 + n) * (u + v))) / 255, (t + (u' + (1 + n) * (u' + v'))) / 255;
    var d := k - j;
    assert (u' + v') == (u + v) + 255 * d;
    MultipleOfSum(1 + n, u + v, d);
    assert u' == u + 255 * (l - m - (1 + n) * d);
    CongruentMultiple(u, u', l - m - (1 + n) * d);
    CongruentMultiple(v, v', d - (l - m - (1 + n) * d));
  }

  lemma PairKeepsResidue(s: nat, t: nat, n: nat, u: nat, v: nat, u': nat, v': nat)
    requires Congruent(s + (u + v), 0) && Congruent(t + PairWeight(n, u, v), 0)
    requires Congruent(u, u') && Congruent(v, v')
    ensures Congruent(s + (u' + v'), 0) && Congruent(t + PairWeight(n, u', v'), 0)
  {
    var j, k := u' / 255 - u / 255, v' / 255 - v / 255;
    assert u' == u + 255 * j && v' == v + 255 * k;
    MultipleOfSum(1 + n, u + v, j + k);
    CongruentMultiple(s + (u + v), s + (u' + v'), j + k);
    CongruentMultiple(t + (u + (1 + n) * (u + v)), t + (u' + (1 + n) * (u' + v')), j + (1 + n) * (j + k));
  }

  lemma MultipleOfSum(n: nat, x: int, d: int)
    ensures n * (x + 255 * d) == n * x + 255 * (n * d)
  {
  }

  lemma CongruentMultiple(a: int, b: int, k: int)
    requires b == a + 255 * k
    ensures Congruent(a, b)
  {
  }

  /** Changing two adjacent bytes keeps the residue at zero only if each changed between 0x00 and 0xFF. */
  lemma AdjacentCorruption(before: seq<byte>, u: byte, v: byte, u': byte, v': byte, after: seq<byte>)
    requires HasZeroResidue(before + [u, v] + after)
    ensures HasZeroResidue(before + [u', v'] + after) <==> IsZeroSwap(u, u') && IsZeroSwap(v, v')
  {
    hide Sum, WeightedSum, Congruent, IsZeroSwap, BaseSum, BaseWeightedSum, PairWeight;
    SumsAroundPair(before, u, v, after);
    SumsAroundPair(before, u', v', after);
    ZeroSwapIsCongruent(u, u');
    ZeroSwapIsCongruent(v, v');
    PairDecides(BaseSum(before, after), BaseWeightedSum(before, after), |after|,
                u as nat, v as nat, u' as nat, v' as nat);
  }

  lemma PairDecides(s: nat, t: nat, n: nat, u: nat, v: nat, u': nat, v': nat)
    requires Congruent(s + (u + v), 0) && Congruent(t + PairWeight(n, u, v), 0)
    ensures Congruent(s + (u' + v'), 0) && Congruent(t + PairWeight(n, u', v'), 0)
       <==> Congruent(u, u') && Congruent(v, v')
  {
    hide Congruent, PairWeight;
    if Congruent(s + (u' + v'), 0) && Congruent(t + PairWeight(n, u', v'), 0) {
      PairIsCongruent(s, t, n, u, v, u', v');
    }
    if Congruent(u, u') && Congruent(v, v') {
      PairKeepsResidue(s, t, n, u, v, u', v');
    }
  }
}
