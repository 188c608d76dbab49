/** BIT_STRING.c: the BIT STRING value, its compaction, its order and its copy. */
module BitStr {
  import opened Bits

  /** BIT_STRING_t as a value; present tells whether buf is a non-null pointer. */
  datatype BitString = BitString(present: bool, data: seq<byte>, unused: int)

  /** The bits a value stands for. */
  function UsedBits(v: BitString): seq<bool>
    requires 0 <= v.unused <= 8 * |v.data|
  {
    BytesBits(v.data)[..8 * |v.data| - v.unused]
  }

  predicate PaddingZero(v: BitString)
    requires 0 <= v.unused <= 8 * |v.data|
  {
    forall i :: 8 * |v.data| - v.unused <= i < 8 * |v.data| ==> !BytesBits(v.data)[i]
  }

  /** What the encoders accept: the header test shared by them and by BIT_STRING_constraint. */
  predicate HeaderOk(v: BitString) {
    0 <= v.unused <= 7 && (v.data == [] ==> v.unused == 0)
  }

  /** A proper BIT STRING: padding inside the last octet and zero. */
  predicate WellFormed(v: BitString) {
    v.present && HeaderOk(v) && PaddingZero(v)
  }

  /** BIT_STRING_constraint. */
  function Constraint(st: BitString): int {
    if st.present then
      if (|st.data| == 0 && st.unused != 0) || st.unused < 0 || st.unused > 7 then -1 else 0
    else -1
  }

  /** The constraint check accepts what is present with 0 to 7 unused bits, and none when empty. */
  lemma ConstraintExactly(st: BitString)
    ensures Constraint(st) == 0 <==> st.present && HeaderOk(st)
    ensures Constraint(st) == 0 || Constraint(st) == -1
    ensures HeaderOk(st) <==> st.unused in {0, 1, 2, 3, 4, 5, 6, 7} && (|st.data| > 0 || st.unused == 0)
  {
  }

  // ----- compaction -----

  /** The shortest representation of the bits of data, trailing zeros dropped. */
  function Compacted(data: seq<byte>): (c: BitString)
    ensures HeaderOk(c) && c.present && c.data <= data
  {
    var n := |Trim(BytesBits(data))|;
    BitString(true, data[..(n + 7) / 8], Padding(n))
  }

  /** Bitwise AND of two n-bit numbers. */
  function And(x: nat, y: nat, n: nat): nat {
    if n == 0 then 0 else 2 * And(x / 2, y / 2, n - 1) + (if x % 2 == 1 && y % 2 == 1 then 1 else 0)
  }

  function TrailingZeros(v: nat): nat
    requires v > 0
  {
    if v % 2 == 1 then 0 else 1 + TrailingZeros(v / 2)
  }

  lemma {:induction false} AndComplement(x: nat, n: nat)
    requires x < Pow2(n)
    ensures And(x, Pow2(n) - 1 - x, n) == 0
  {
    if n > 0 { AndComplement(x / 2, n - 1); }
  }

  /** v & -v isolates the lowest set bit. */
  lemma {:induction false} AndNegated(v: nat, n: nat)
    requires 0 < v < Pow2(n)
    ensures TrailingZeros(v) < n && And(v, Pow2(n) - v, n) == Pow2(TrailingZeros(v))
  {
    if v % 2 == 1 {
      AndComplement(v / 2, n - 1);
      assert (Pow2(n) - v) / 2 == Pow2(n - 1) - 1 - v / 2;
    } else {
      AndNegated(v / 2, n - 1);
      assert (Pow2(n) - v) / 2 == Pow2(n - 1) - v / 2;
    }
  }

  lemma {:induction false} AndZero(y: nat, n: nat)
    ensures And(0, y, n) == 0
  {
    if n > 0 { AndZero(y / 2, n - 1); }
  }

  /** Masking an isolated bit tests that bit of the mask. */
  lemma {:induction false} AndIsolated(t: nat, mask: nat, n: nat)
    requires t < n
    ensures And(Pow2(t), mask, n) == if Shr(mask, t) % 2 == 1 then Pow2(t) else 0
  {
    if t == 0 {
      AndZero(mask / 2, n - 1);
    } else {
      AndIsolated(t - 1, mask / 2, n - 1);
    }
  }

  /** The bits of the three masks 0x0F, 0x33 and 0x55. */
  lemma MaskBits(t: nat)
    requires t < 8
    ensures Shr(0x0F, t) % 2 == 1 <==> t < 4
    ensures Shr(0x33, t) % 2 == 1 <==> t % 4 < 2
    ensures Shr(0x55, t) % 2 == 1 <==> t % 2 == 0
  {
    hide Shr;
    ShrSteps(0x0F);
    ShrSteps(0x33);
    ShrSteps(0x55);
  }

  /** The bit steps of BIT_STRING__compactify: the number of trailing zeros of a non-zero octet. */
  method UnusedOf(b: byte) returns (unused: nat)
    requires b != 0
    ensures unused == TrailingZeros(b) <= 7
  {
    hide And, TrailingZeros, Shr, Pow2;
    OctetPower();
    AndNegated(b, 8);
    var v := And(b, 256 - b, 8);   // v &= -(int8_t)v
    ghost var t := TrailingZeros(b);
    MaskBits(t);
    AndIsolated(t, 0x0F, 8);
    AndIsolated(t, 0x33, 8);
    AndIsolated(t, 0x55, 8);
    unused := 7;
    if And(v, 0x0F, 8) != 0 { unused := unused - 4; }
    if And(v, 0x33, 8) != 0 { unused := unused - 2; }
    if And(v, 0x55, 8) != 0 { unused := unused - 1; }
  }

  lemma OctetPower()
    ensures Pow2(8) == 256
  {
  }

  lemma {:induction false} LowestOne(v: nat, n: nat)
    requires 0 < v < Pow2(n)
    ensures TrailingZeros(v) < n
    ensures NatBits(v, n)[n - 1 - TrailingZeros(v)]
    ensures forall j :: n - 1 - TrailingZeros(v) < j < n ==> !NatBits(v, n)[j]
  {
    if v % 2 == 0 { LowestOne(v / 2, n - 1); }
  }

  lemma BitAt(data: seq<byte>, i: nat, j: nat)
    requires i < |data| && j < 8
    ensures BytesBits(data)[8 * i + j] == ByteBits(data[i])[j]
  {
    OctetAt(data, |data|, i);
    assert BytesBits(data)[8 * i..8 * i + 8][j] == BytesBits(data)[8 * i + j];
  }

  lemma ZeroOctets(data: seq<byte>, from: nat)
    requires from <= |data| && forall i :: from <= i < |data| ==> data[i] == 0
    ensures forall k :: 8 * from <= k < 8 * |data| ==> !BytesBits(data)[k]
  {
    hide BytesBits, ByteBits;
    forall k | 8 * from <= k < 8 * |data|
      ensures !BytesBits(data)[k]
    {
      BitAt(data, k / 8, k % 8);
      ZeroOctet();
    }
  }

  lemma ZeroOctet()
    ensures ByteBits(0) == Zeros(8)
  {
    NatBitsZero(8);
  }

  /** Where the last 1 of the octets is when the last non-zero octet is data[b]. */
  lemma TrimmedLength(data: seq<byte>, b: nat)
    requires b < |data| && data[b] != 0 && forall i :: b < i < |data| ==> data[i] == 0
    ensures TrailingZeros(data[b]) <= 7
    ensures |Trim(BytesBits(data))| == 8 * (b + 1) - TrailingZeros(data[b])
  {
    hide BytesBits, TrailingZeros, Trim;
    var bits, u := BytesBits(data), TrailingZeros(data[b]);
    LowestOneOctet(data[b]);
    ZeroOctets(data, b + 1);
    var n := 8 * (b + 1) - u;
    BitAt(data, b, 7 - u);
    forall k | n <= k < |bits|
      ensures !bits[k]
    {
      if k < 8 * (b + 1) {
        BitAt(data, b, k - 8 * b);
      }
    }
    TrimUnique(bits, bits[..n]);
  }

  lemma LowestOneOctet(b: byte)
    requires b != 0
    ensures TrailingZeros(b) <= 7 && ByteBits(b)[7 - TrailingZeros(b)]
    ensures forall j :: 7 - TrailingZeros(b) < j < 8 ==> !ByteBits(b)[j]
  {
    assert Pow2(8) == 256;
    LowestOne(b, 8);
  }

  /**
   * What BIT_STRING__compactify returns, its assertions being off: an empty string
   * as it is, bits_unused included.
   */
  function Compactified(st: BitString): BitString {
    if st.data == [] then st else Compacted(st.data)
  }

  /** BIT_STRING__compactify. */
  method Compactify(st: BitString) returns (c: BitString)
    ensures c == Compactified(st)
  {
    hide BytesBits, Trim, TrailingZeros, Padding;
    if |st.data| == 0 {
      return st;   // asserts st.unused == 0
    }
    var b := |st.data| - 1;
    while b > 0 && st.data[b] == 0
      invariant 0 <= b < |st.data|
      invariant forall i :: b < i < |st.data| ==> st.data[i] == 0
    {
      b := b - 1;
    }
    if st.data[b] != 0 {
      TrimmedLength(st.data, b);
      var unused := UnusedOf(st.data[b]);
      PaddingOf(8 * (b + 1) - unused, b + 1);
      c := BitString(true, st.data[..b + 1], unused);
    } else {
      ZeroOctets(st.data, 0);
      TrimUnique(BytesBits(st.data), []);
      PaddingOf(0, 0);
      c := BitString(true, st.data[..b], 0);
    }
  }

  lemma PaddingOf(n: nat, k: nat)
    requires n <= 8 * k < n + 8
    ensures Padding(n) == 8 * k - n && (n + 7) / 8 == k
  {
  }

  /** Compaction keeps the bits of the octets up to trailing zeros, and nothing else. */
  lemma CompactedBits(data: seq<byte>)
    ensures UsedBits(Compacted(data)) == Trim(BytesBits(data))
  {
    hide BytesBits, Trim;
    var t, c := Trim(BytesBits(data)), Compacted(data);
    Cut(data, |c.data|, |c.data|);
    BytesBitsConcat(c.data, data[|c.data|..]);
    PaddingOf(|t|, |c.data|);
    assert UsedBits(c) == BytesBits(data)[..|t|];
  }

  lemma CompactedTrim(data: seq<byte>)
    ensures Trim(BytesBits(Compacted(data).data)) == Trim(BytesBits(data))
  {
    hide BytesBits, Trim;
    var t, c := Trim(BytesBits(data)), Compacted(data);
    CompactedBits(data);
    Cut(data, |c.data|, |c.data|);
    BytesBitsConcat(c.data, data[|c.data|..]);
    assert forall i :: |t| <= i < 8 * |c.data| ==> BytesBits(c.data)[i] == BytesBits(data)[i];
    TrimUnique(BytesBits(c.data), t);
  }

  lemma CompactedIdempotent(data: seq<byte>)
    ensures Compacted(Compacted(data).data) == Compacted(data)
  {
    hide BytesBits, Trim, Padding;
    CompactedTrim(data);
    var c := Compacted(data).data;
    assert c[..|c|] == c;
  }

  lemma CompactedWellFormed(data: seq<byte>)
    ensures WellFormed(Compacted(data))
    ensures Compacted(data).data != [] ==> Compacted(data).data[|Compacted(data).data| - 1] != 0
  {
    hide BytesBits, Trim, Padding;
    var c := Compacted(data);
    var k := |c.data|;
    CompactedBits(data);
    CompactedTrim(data);
    assert Trim(BytesBits(c.data)) == UsedBits(c);
    if k > 0 {
      PaddingOf(|UsedBits(c)|, k);
      BitAt(c.data, k - 1, 7 - c.unused);
      ZeroOctet();
    }
  }

  /**
   * Compaction is a canonical form: it ends in a 1 or is empty, it compacts to
   * itself, and no representation of the same bits has fewer octets or bits.
   */
  lemma CompactedCanonical(data: seq<byte>, w: BitString)
    ensures var c := Compacted(data);
            && WellFormed(c)
            && (UsedBits(c) == [] || UsedBits(c)[|UsedBits(c)| - 1])
            && Compacted(c.data) == c
    ensures HeaderOk(w) && Trim(UsedBits(w)) == Trim(BytesBits(data))
            ==> |Compacted(data).data| <= |w.data| && |UsedBits(Compacted(data))| <= |UsedBits(w)|
  {
    hide BytesBits, Trim;
    CompactedBits(data);
    CompactedIdempotent(data);
    CompactedWellFormed(data);
  }

  /** For octets in use, compaction keeps a value's bits exactly when its padding is zero. */
  lemma CompactionKeepsValue(v: BitString)
    requires HeaderOk(v)
    ensures UsedBits(Compacted(v.data)) == Trim(UsedBits(v)) <==> PaddingZero(v)
  {
    hide BytesBits, Trim;
    var bits, n := BytesBits(v.data), 8 * |v.data| - v.unused;
    CompactedBits(v.data);
    var t := Trim(UsedBits(v));
    if PaddingZero(v) {
      assert forall i :: |t| <= i < n ==> !UsedBits(v)[i] && bits[i] == UsedBits(v)[i];
      assert t == bits[..|t|];
      TrimUnique(bits, t);
    } else {
      var i :| n <= i < |bits| && bits[i];
      assert |Trim(bits)| > i;
    }
  }

  // ----- order -----

  /** Sign of memcmp on the octets from i up to n. */
  function Memcmp(x: seq<byte>, y: seq<byte>, i: nat, n: nat): int
    requires i <= n <= |x| && n <= |y|
    decreases n - i
  {
    if i == n then 0
    else if x[i] < y[i] then -1
    else if x[i] > y[i] then 1
    else Memcmp(x, y, i + 1, n)
  }

  /** BIT_STRING_compare; the size of a non-zero memcmp result is normalised to 1. */
  function Compare(a: BitString, b: BitString): int {
    var x, y := Compactified(a), Compactified(b);
    var common := if |x.data| <= |y.data| then |x.data| else |y.data|;
    var ret := Memcmp(x.data, y.data, 0, common);
    if ret == 0 then
      if |x.data| < |y.data| then -1
      else if |x.data| > |y.data| then 1
      else if x.unused > y.unused then -1
      else if x.unused < y.unused then 1
      else 0
    else ret
  }

  /** The octets from i on, read as a base-256 fraction. */
  function Fraction(d: seq<byte>, i: nat): (r: real)
    requires i <= |d|
    ensures 0.0 <= r < 1.0
    decreases |d| - i
  {
    if i == |d| then 0.0 else (d[i] as real + Fraction(d, i + 1)) / 256.0
  }

  function Sign(r: real): int {
    if r < 0.0 then -1 else if r > 0.0 then 1 else 0
  }

  predicate NoTrailingZero(d: seq<byte>) {
    d == [] || d[|d| - 1] != 0
  }

  lemma {:induction false} FractionPositive(d: seq<byte>, i: nat)
    requires NoTrailingZero(d) && i < |d|
    ensures Fraction(d, i) > 0.0
    decreases |d| - i
  {
    if i < |d| - 1 { FractionPositive(d, i + 1); }
  }

  /** Octet by octet comparison, then length: the order of the fractions. */
  lemma {:induction false} OrderOfFractions(x: seq<byte>, y: seq<byte>, i: nat)
    requires NoTrailingZero(x) && NoTrailingZero(y) && i <= |x| && i <= |y|
    ensures var common := if |x| <= |y| then |x| else |y|;
            var m := Memcmp(x, y, i, common);
            Sign(Fraction(x, i) - Fraction(y, i)) ==
              if m != 0 then m else if |x| < |y| then -1 else if |x| > |y| then 1 else 0
    decreases |x| - i
  {
    if i == |x| || i == |y| {
      if i < |x| { FractionPositive(x, i); }
      if i < |y| { FractionPositive(y, i); }
    } else if x[i] == y[i] {
      OrderOfFractions(x, y, i + 1);
    }
  }

  /** Dropping trailing zero octets does not change the fraction. */
  lemma {:induction false} FractionPrefix(d: seq<byte>, k: nat, i: nat)
    requires i <= k <= |d| && forall j :: k <= j < |d| ==> d[j] == 0
    ensures Fraction(d, i) == Fraction(d[..k], i)
    decreases |d| - i
  {
    if i < k {
      FractionPrefix(d, k, i + 1);
    } else {
      FractionZero(d, i);
    }
  }

  lemma {:induction false} FractionZero(d: seq<byte>, i: nat)
    requires i <= |d| && forall j :: i <= j < |d| ==> d[j] == 0
    ensures Fraction(d, i) == 0.0
    decreases |d| - i
  {
    if i < |d| { FractionZero(d, i + 1); }
  }

  lemma DroppedOctetsZero(data: seq<byte>)
    ensures forall j :: |Compacted(data).data| <= j < |data| ==> data[j] == 0
  {
    hide BytesBits, Trim;
    forall j | |Compacted(data).data| <= j < |data|
      ensures data[j] == 0
    {
      if data[j] != 0 {
        LowestOneOctet(data[j]);
        BitAt(data, j, 7 - TrailingZeros(data[j]));
      }
    }
  }

  lemma CompactedFraction(data: seq<byte>)
    ensures Fraction(Compacted(data).data, 0) == Fraction(data, 0)
  {
    DroppedOctetsZero(data);
    var c := Compacted(data).data;
    assert c == data[..|c|];
    FractionPrefix(data, |c|, 0);
  }

  /** The unused bits that survive compaction: those of an empty string. */
  function Stray(v: BitString): int {
    if v.data == [] then v.unused else 0
  }

  /** Both strings are zeros only, and the unused bits of an empty one make the difference. */
  predicate StrayDiffers(a: BitString, b: BitString) {
    Compacted(a.data).data == [] && Compacted(b.data).data == [] && Stray(a) != Stray(b)
  }

  lemma CompactifiedParts(v: BitString)
    ensures Compactified(v).data == Compacted(v.data).data
    ensures Compacted(v.data).data != [] ==> Compactified(v).unused == Compacted(v.data).unused
    ensures Compacted(v.data).data == [] ==> Compactified(v).unused == Stray(v)
  {
    hide BytesBits, Trim;
  }

  /** When the compacted octets agree, the bits_unused tie-break decides exactly for empty strings with stray unused bits. */
  lemma TieBreakDecides(a: BitString, b: BitString)
    requires Compactified(a).data == Compactified(b).data
    ensures Compactified(a).unused != Compactified(b).unused <==> StrayDiffers(a, b)
  {
    hide Compacted, Compactified;
    CompactifiedParts(a);
    CompactifiedParts(b);
    CompactedIdempotent(a.data);
    CompactedIdempotent(b.data);
  }

  /** The order is the order of the base-256 fractions, and then that of stray unused bits, more of them first. */
  lemma CompareExactly(a: BitString, b: BitString)
    ensures Compare(a, b) ==
              var s := Sign(Fraction(a.data, 0) - Fraction(b.data, 0));
              if s != 0 then s
              else if !StrayDiffers(a, b) then 0
              else if Stray(a) > Stray(b) then -1 else 1
  {
    hide Compacted, Compactified, Fraction;
    var x, y := Compactified(a).data, Compactified(b).data;
    CompactifiedParts(a);
    CompactifiedParts(b);
    CompactedFraction(a.data);
    CompactedFraction(b.data);
    CompactedWellFormed(a.data);
    CompactedWellFormed(b.data);
    OrderOfFractions(x, y, 0);
    if |x| == |y| && Memcmp(x, y, 0, |x|) == 0 {
      MemcmpEqual(x, y, 0);
      assert x[0..] == x && y[0..] == y;
      TieBreakDecides(a, b);
    }
  }

  /**
   * The order is arithmetic, the sign of the difference of the base-256 fractions,
   * exactly when no stray unused bits decide; so for all values with a good header.
   */
  lemma CompareIsArithmetic(a: BitString, b: BitString)
    ensures Compare(a, b) == Sign(Fraction(a.data, 0) - Fraction(b.data, 0)) <==> !StrayDiffers(a, b)
    ensures HeaderOk(a) && HeaderOk(b) ==> !StrayDiffers(a, b)
  {
    hide Compare, Compacted;
    CompareExactly(a, b);
    CompactedFraction(a.data);
    CompactedFraction(b.data);
  }

  /** An empty string with three unused bits comes before the empty string. */
  lemma StrayBitsCompare()
    ensures Compare(BitString(true, [], 3), BitString(true, [], 0)) == -1
  {
  }

  lemma {:induction false} MemcmpEqual(x: seq<byte>, y: seq<byte>, i: nat)
    requires i <= |x| == |y|
    ensures Memcmp(x, y, i, |x|) == 0 <==> x[i..] == y[i..]
    decreases |x| - i
  {
    if i < |x| {
      MemcmpEqual(x, y, i + 1);
      assert x[i..] == [x[i]] + x[i + 1..] && y[i..] == [y[i]] + y[i + 1..];
    }
  }

  lemma CompareTotalPreorder(a: BitString, b: BitString, c: BitString)
    ensures Compare(a, a) == 0
    ensures Compare(a, b) == -Compare(b, a)
    ensures Compare(a, b) <= 0 && Compare(b, c) <= 0 ==> Compare(a, c) <= 0
  {
    hide Compare, Fraction, Compacted;
    CompareExactly(a, a);
    CompareExactly(a, b);
    CompareExactly(b, a);
    CompareExactly(b, c);
    CompareExactly(a, c);
    ZerosByFraction(a.data);
    ZerosByFraction(b.data);
    ZerosByFraction(c.data);
  }

  lemma ZerosByFraction(data: seq<byte>)
    ensures Compacted(data).data == [] <==> Fraction(data, 0) == 0.0
  {
    hide Compacted;
    CompactedFraction(data);
    CompactedWellFormed(data);
    var c := Compacted(data).data;
    if c != [] { FractionPositive(c, 0); }
  }

  /**
   * Two values compare equal exactly when their octets hold the same bits up to
   * trailing zeros and no stray unused bits decide.
   */
  lemma CompareZero(a: BitString, b: BitString)
    ensures Compare(a, b) == 0 <==> Trim(BytesBits(a.data)) == Trim(BytesBits(b.data)) && !StrayDiffers(a, b)
    ensures HeaderOk(a) && HeaderOk(b) ==> !StrayDiffers(a, b)
  {
    hide BytesBits, Trim, Fraction, Compare, Compacted;
    var x, y := Compacted(a.data), Compacted(b.data);
    CompareExactly(a, b);
    CompactedFraction(a.data);
    CompactedFraction(b.data);
    CompactedTrim(a.data);
    CompactedTrim(b.data);
    CompactedWellFormed(a.data);
    CompactedWellFormed(b.data);
    SameFraction(x.data, y.data);
    if Trim(BytesBits(a.data)) == Trim(BytesBits(b.data)) {
      CompactedBits(a.data);
      CompactedBits(b.data);
      SameBitsSameOctets(x, y);
    }
  }

  /** Octets without trailing zero octets are determined by their fraction. */
  lemma SameFraction(x: seq<byte>, y: seq<byte>)
    requires NoTrailingZero(x) && NoTrailingZero(y)
    ensures Fraction(x, 0) == Fraction(y, 0) <==> x == y
  {
    hide Fraction;
    OrderOfFractions(x, y, 0);
    if |x| == |y| {
      MemcmpEqual(x, y, 0);
      assert x[0..] == x && y[0..] == y;
    }
  }

  lemma SameBitsSameOctets(x: BitString, y: BitString)
    requires WellFormed(x) && WellFormed(y) && UsedBits(x) == UsedBits(y)
    ensures x.data == y.data && x.unused == y.unused
  {
    hide BytesBits;
    var n := |UsedBits(x)|;
    PaddingOf(n, |x.data|);
    PaddingOf(n, |y.data|);
    var p, q := BytesBits(x.data), BytesBits(y.data);
    assert forall i :: 0 <= i < n ==> p[i] == UsedBits(x)[i] && q[i] == UsedBits(y)[i];
    assert p == q;
    BytesBitsInjective(x.data, y.data);
  }

  // ----- the structure in memory -----

  /** BIT_STRING_t in memory: block is what buf points to, room for a final zero octet included. */
  class Cell {
    var present: bool
    var block: seq<byte>
    var size: nat
    var unused: int

    ghost predicate Valid()
      reads this
    {
      if present then size < |block| else size == 0
    }

    /** The value held, without the octets beyond size. */
    ghost function View(): BitString
      requires Valid()
      reads this
    {
      BitString(present, if present then block[..size] else [], unused)
    }

    /** calloc */
    constructor ()
      ensures Valid() && View() == BitString(false, [], 0)
    {
      present, block, size, unused := false, [], 0, 0;
    }

    /** Makes room for n more octets and the final zero; the value does not change. */
    method Reserve(n: nat)
      requires Valid()
      modifies this
      ensures Valid() && View() == old(View()).(present := true)
      ensures |block| == size + n + 1 && size == old(size)
    {
      var grown := Realloc(if present then block else [], size + n + 1);
      assert grown[..size] == View().data;
      present, block := true, grown;
    }

    /** Writes octets after the value, into reserved room. */
    method Append(octets: seq<byte>)
      requires Valid() && present && size + |octets| < |block|
      modifies this
      ensures Valid() && View() == old(View()).(data := old(View()).data + octets)
      ensures |block| == old(|block|)
    {
      ghost var data := View().data;
      block := block[..size] + octets + block[size + |octets|..];
      size := size + |octets|;
      assert block[..size] == data + octets;
    }

    /** The courtesy zero octet after the value. */
    method Terminate()
      requires Valid() && present
      modifies this
      ensures Valid() && View() == old(View()) && block[size] == 0
    {
      ghost var data := View().data;
      block := block[size := 0];
      assert block[..size] == data;
    }

    /** realloc: keeps the octets that fit; the rest is arbitrary. */
    static method Realloc(old_: seq<byte>, n: nat) returns (block: seq<byte>)
      ensures |block| == n
      ensures forall i :: 0 <= i < n && i < |old_| ==> block[i] == old_[i]
    {
      block := if n <= |old_| then old_[..n] else old_ + seq(n - |old_|, _ => 0);
    }
  }

  /**
   * BIT_STRING_copy: what aptr points to afterwards; b is null to release a.
   * structure and buffer tell whether the two allocations succeed.
   */
  method Copy(a: Cell?, b: Cell?, structure: bool, buffer: bool) returns (rc: int, aptr: Cell?)
    requires b != null ==> b.Valid()
    modifies a
    ensures rc == if b != null && ((a == null && !structure) || !buffer) then -1 else 0
    ensures b == null ==> aptr == null
    ensures b != null ==> (a != null ==> aptr == a) && (a == null ==> if structure then aptr != null && fresh(aptr) else aptr == null)
    ensures b != null && rc == 0 ==> aptr.Valid() && aptr.View() == old(b.View()).(present := true)
                                     && aptr.block[aptr.size] == 0
    ensures rc == -1 && a != null ==> unchanged(a)
    ensures rc == -1 && a == null && aptr != null ==> aptr.Valid() && aptr.View() == BitString(false, [], 0)
    ensures b != null && b != a ==> b.Valid() && b.View() == old(b.View())
  {
    rc := 0;
    if b == null {
      return 0, null;
    }
    var dst: Cell;
    if a == null {
      if !structure {
        return -1, null;
      }
      dst := new Cell();
    } else {
      dst := a;
    }
    aptr := dst;
    if !buffer {
      return -1, aptr;
    }
    var buf := Cell.Realloc([], b.size + 1);
    if b.present {
      buf := b.block[..b.size] + buf[b.size..];
    }
    buf := buf[b.size := 0];
    dst.present, dst.block, dst.size, dst.unused := true, buf, b.size, b.unused;
  }

  /** A copy compares equal to its original. */
  lemma CopyComparesEqual(b: BitString)
    ensures Compare(b.(present := true), b) == 0
  {
    CompareTotalPreorder(b, b, b);
  }
}
