/**
 * Octets, bits and big-endian numbers: the vocabulary shared by every codec.
 * The C shifts and masks are the recursive functions Shl, Shr and Low, so that
 * proofs about them stay linear.
 */
module Bits {
  datatype Option<+T> = None | Some(value: T) {
    function GetOr(default: T): T {
      match this
      case Some(v) => v
      case None => default
    }
  }

  type byte = x: int | 0 <= x < 256

  /** asn_dec_rval_code_e */
  datatype Rc = Ok | WMore | Fail

  /** asn_app_consume_bytes_f: what an encoder has handed out. */
  class Sink<T> {
    var out: seq<T>

    constructor ()
      ensures out == []
    {
      out := [];
    }

    method Consume(chunk: seq<T>)
      modifies this
      ensures out == old(out) + chunk
    {
      out := out + chunk;
    }
  }

  function Pow2(n: nat): (p: nat)
    ensures p >= 1
  {
    if n == 0 then 1 else 2 * Pow2(n - 1)
  }

  /** v << k */
  function Shl(v: nat, k: nat): nat {
    if k == 0 then v else 2 * Shl(v, k - 1)
  }

  /** v >> k */
  function Shr(v: nat, k: nat): nat {
    if k == 0 then v else Shr(v / 2, k - 1)
  }

  /** v & ((1 << k) - 1) */
  function Low(v: nat, k: nat): (r: nat)
    ensures r < Pow2(k)
  {
    if k == 0 then 0 else 2 * Low(v / 2, k - 1) + v % 2
  }

  /** The low n bits of v, most significant first. */
  function NatBits(v: nat, n: nat): (s: seq<bool>)
    ensures |s| == n
  {
    if n == 0 then [] else NatBits(v / 2, n - 1) + [v % 2 == 1]
  }

  function NatOfFirst(s: seq<bool>, n: nat): (v: nat)
    requires n <= |s|
    ensures v < Pow2(n)
  {
    if n == 0 then 0 else 2 * NatOfFirst(s, n - 1) + (if s[n - 1] then 1 else 0)
  }

  /** A bit sequence read as a big-endian number. */
  function BitsNat(s: seq<bool>): (v: nat)
    ensures v < Pow2(|s|)
  {
    NatOfFirst(s, |s|)
  }

  function Zeros(n: nat): (s: seq<bool>)
    ensures |s| == n
  {
    seq(n, _ => false)
  }

  function ByteBits(b: byte): (s: seq<bool>)
    ensures |s| == 8
  {
    NatBits(b, 8)
  }

  function ToByte(bits: seq<bool>): byte
    requires |bits| == 8
  {
    BitsNat(bits)
  }

  /** The bits of the first n octets. */
  function BitsUpTo(s: seq<byte>, n: nat): (bits: seq<bool>)
    requires n <= |s|
    ensures |bits| == 8 * n
  {
    if n == 0 then [] else BitsUpTo(s, n - 1) + ByteBits(s[n - 1])
  }

  function BytesBits(s: seq<byte>): (bits: seq<bool>)
    ensures |bits| == 8 * |s|
  {
    BitsUpTo(s, |s|)
  }

  /** Number of zero bits that complete n bits to whole octets. */
  function Padding(n: nat): (k: nat)
    ensures k < 8 && (n + k) % 8 == 0
  {
    (8 - n % 8) % 8
  }

  function OctetsUpTo(bits: seq<bool>, k: nat): (s: seq<byte>)
    requires 8 * k <= |bits|
    ensures |s| == k
  {
    if k == 0 then [] else OctetsUpTo(bits, k - 1) + [ToByte(bits[8 * k - 8..8 * k])]
  }

  /** Left-aligned packing into octets; the padding of the last octet is zero. */
  function Pack(bits: seq<bool>): (s: seq<byte>)
    ensures |s| == (|bits| + 7) / 8
  {
    OctetsUpTo(bits + Zeros(Padding(|bits|)), (|bits| + 7) / 8)
  }

  lemma NothingThere()
    ensures Pow2(0) == 1 && NatBits(0, 0) == [] && Zeros(0) == [] && BytesBits([]) == []
  {
  }

  // ----- sequences -----

  lemma Cut<T>(s: seq<T>, i: nat, j: nat)
    requires i <= j <= |s|
    ensures s == s[..i] + s[i..j] + s[j..]
    ensures s == s[..i] + s[i..]
    ensures s[..j] == s[..i] + s[i..j]
  {
  }

  lemma Assoc<T>(a: seq<T>, b: seq<T>, c: seq<T>)
    ensures a + (b + c) == (a + b) + c
  {
  }

  lemma CutOne<T>(s: seq<T>, i: nat)
    requires i < |s|
    ensures s == s[..i] + [s[i]] + s[i + 1..]
  {
  }

  lemma Assoc4<T>(f: seq<T>, a: seq<T>, b: seq<T>, c: seq<T>)
    ensures f + (a + b + c) == (f + a) + b + c
  {
    Assoc(f, a + b, c);
    Assoc(f, a, b);
  }

  // ----- shifts -----

  lemma {:induction false} Pow2Shl(a: nat, b: nat)
    ensures Shl(Pow2(a), b) == Pow2(a + b)
  {
    if b > 0 { Pow2Shl(a, b - 1); }
  }

  lemma {:induction false} ShlShl(v: nat, a: nat, b: nat)
    ensures Shl(Shl(v, a), b) == Shl(v, a + b)
  {
    if b > 0 { ShlShl(v, a, b - 1); }
  }

  lemma {:induction false} ShlAdd(x: nat, y: nat, k: nat)
    ensures Shl(x + y, k) == Shl(x, k) + Shl(y, k)
  {
    if k > 0 { ShlAdd(x, y, k - 1); }
  }

  lemma {:induction false} ShlMono(x: nat, y: nat, k: nat)
    requires x <= y
    ensures Shl(x, k) <= Shl(y, k)
  {
    if k > 0 { ShlMono(x, y, k - 1); }
  }

  /** An m-bit number above a k-bit number is an (m + k)-bit number. */
  lemma {:induction false} ShlBound(x: nat, m: nat, y: nat, k: nat)
    requires x < Pow2(m) && y < Pow2(k)
    ensures Shl(x, k) + y < Pow2(m + k)
  {
    if k > 0 { ShlBound(x, m, y / 2, k - 1); }
  }

  lemma {:induction false} ShiftSplit(v: nat, k: nat)
    ensures v == Shl(Shr(v, k), k) + Low(v, k)
  {
    if k > 0 { ShiftSplit(v / 2, k - 1); }
  }

  lemma {:induction false} ShiftJoin(x: nat, y: nat, k: nat)
    requires y < Pow2(k)
    ensures Shr(Shl(x, k) + y, k) == x && Low(Shl(x, k) + y, k) == y
  {
    if k > 0 {
      ShiftJoin(x, y / 2, k - 1);
      assert (Shl(x, k) + y) / 2 == Shl(x, k - 1) + y / 2;
    }
  }

  lemma {:induction false} ShrBound(v: nat, n: nat, k: nat)
    requires k <= n && v < Pow2(n)
    ensures Shr(v, k) < Pow2(n - k)
  {
    if k > 0 { ShrBound(v / 2, n - 1, k - 1); }
  }

  lemma Shift8(v: nat)
    ensures Shl(v, 8) == 256 * v && Shr(v, 8) == v / 256 && Low(v, 8) == v % 256 && Pow2(8) == 256
  {
    assert Shl(v, 1) == 2 * v && Shl(v, 2) == 4 * v && Shl(v, 3) == 8 * v && Shl(v, 4) == 16 * v;
    assert Shl(v, 5) == 32 * v && Shl(v, 6) == 64 * v && Shl(v, 7) == 128 * v;
    calc {
      Shr(v, 8);
      Shr(v / 2, 7);
      Shr(v / 4, 6);
      Shr(v / 8, 5);
      Shr(v / 16, 4);
      Shr(v / 32, 3);
      Shr(v / 64, 2);
      Shr(v / 128, 1);
      v / 256;
    }
    ShiftSplit(v, 8);
    ShlOctet(v / 256);
  }

  lemma ShlOctet(v: nat)
    ensures Shl(v, 8) == 256 * v
  {
    assert Shl(v, 1) == 2 * v && Shl(v, 2) == 4 * v && Shl(v, 3) == 8 * v && Shl(v, 4) == 16 * v;
    assert Shl(v, 5) == 32 * v && Shl(v, 6) == 64 * v && Shl(v, 7) == 128 * v;
  }

  lemma ShlOctets(v: nat)
    ensures Shl(v, 0) == v && Shl(v, 8) == 256 * v && Shl(v, 16) == 65536 * v && Shl(v, 24) == 16777216 * v
  {
    ShlOctet(v);
    ShlShl(v, 8, 8);
    ShlOctet(256 * v);
    ShlShl(v, 16, 8);
    ShlOctet(65536 * v);
  }

  // ----- numbers and bits are inverse -----

  lemma {:induction false} NatOfFirstPrefix(s: seq<bool>, t: seq<bool>, n: nat)
    requires n <= |s| && n <= |t| && s[..n] == t[..n]
    ensures NatOfFirst(s, n) == NatOfFirst(t, n)
  {
    if n > 0 {
      assert s[..n - 1] == s[..n][..n - 1] == t[..n - 1];
      assert s[n - 1] == s[..n][n - 1] == t[n - 1];
      NatOfFirstPrefix(s, t, n - 1);
    }
  }

  lemma BitsNatSnoc(s: seq<bool>, x: bool)
    ensures BitsNat(s + [x]) == 2 * BitsNat(s) + (if x then 1 else 0)
  {
    NatOfFirstPrefix(s + [x], s, |s|);
  }

  lemma {:induction false} NatBitsValue(v: nat, n: nat)
    requires v < Pow2(n)
    ensures BitsNat(NatBits(v, n)) == v
  {
    if n > 0 {
      NatBitsValue(v / 2, n - 1);
      BitsNatSnoc(NatBits(v / 2, n - 1), v % 2 == 1);
    }
  }

  lemma {:induction false} NatOfFirstBits(s: seq<bool>, n: nat)
    requires n <= |s|
    ensures NatBits(NatOfFirst(s, n), n) == s[..n]
  {
    if n > 0 {
      NatOfFirstBits(s, n - 1);
      assert s[..n] == s[..n - 1] + [s[n - 1]];
    }
  }

  lemma BitsNatBits(s: seq<bool>)
    ensures NatBits(BitsNat(s), |s|) == s
  {
    NatOfFirstBits(s, |s|);
    assert s[..|s|] == s;
  }

  lemma {:induction false} NatBitsConcat(x: nat, m: nat, y: nat, k: nat)
    requires y < Pow2(k)
    ensures NatBits(Shl(x, k) + y, m + k) == NatBits(x, m) + NatBits(y, k)
  {
    if k > 0 {
      NatBitsConcat(x, m, y / 2, k - 1);
      assert (Shl(x, k) + y) / 2 == Shl(x, k - 1) + y / 2;
    }
  }

  lemma {:induction false} NatBitsLow(v: nat, n: nat)
    ensures NatBits(Low(v, n), n) == NatBits(v, n)
  {
    if n > 0 { NatBitsLow(v / 2, n - 1); }
  }

  lemma BitsNatConcat(a: seq<bool>, b: seq<bool>)
    ensures BitsNat(a + b) == Shl(BitsNat(a), |b|) + BitsNat(b)
  {
    hide *;
    var x, y, m, k := BitsNat(a), BitsNat(b), |a|, |b|;
    BitsNatBits(a);
    BitsNatBits(b);
    NatBitsConcat(x, m, y, k);
    ShlBound(x, m, y, k);
    NatBitsValue(Shl(x, k) + y, m + k);
  }

  lemma BitsNatJoin(a: seq<bool>, b: seq<bool>)
    ensures Shr(BitsNat(a + b), |b|) == BitsNat(a)
    ensures Low(BitsNat(a + b), |b|) == BitsNat(b)
  {
    hide *;
    BitsNatConcat(a, b);
    ShiftJoin(BitsNat(a), BitsNat(b), |b|);
  }

  /** Cutting a bit sequence is shifting and masking its number. */
  lemma BitsNatSplit(bits: seq<bool>, i: nat)
    requires i <= |bits|
    ensures Shr(BitsNat(bits), |bits| - i) == BitsNat(bits[..i])
    ensures Low(BitsNat(bits), |bits| - i) == BitsNat(bits[i..])
  {
    hide *;
    Cut(bits, i, i);
    BitsNatJoin(bits[..i], bits[i..]);
  }

  /** The top m bits of an n-bit number. */
  lemma NatBitsHead(v: nat, n: nat, m: nat)
    requires m <= n
    ensures NatBits(Shr(v, n - m), m) == NatBits(v, n)[..m]
  {
    hide *;
    ShiftSplit(v, n - m);
    NatBitsConcat(Shr(v, n - m), m, Low(v, n - m), n - m);
  }

  lemma {:induction false} NatBitsZero(n: nat)
    ensures NatBits(0, n) == Zeros(n)
  {
    if n > 0 { NatBitsZero(n - 1); }
  }

  lemma ShiftedBits(bits: seq<bool>, pad: nat)
    ensures NatBits(Shl(BitsNat(bits), pad), |bits| + pad) == bits + Zeros(pad)
  {
    hide *;
    NatBitsConcat(BitsNat(bits), |bits|, 0, pad);
    BitsNatBits(bits);
    NatBitsZero(pad);
  }

  lemma ShrSteps(v: nat)
    ensures Shr(v, 0) == v && Shr(v, 1) == v / 2 && Shr(v, 2) == v / 4 && Shr(v, 3) == v / 8
    ensures Shr(v, 4) == v / 16 && Shr(v, 5) == v / 32 && Shr(v, 6) == v / 64 && Shr(v, 7) == v / 128
  {
    assert Shr(v, 1) == v / 2;
    ShrAgain(v, 1);
    ShrAgain(v, 2);
    ShrAgain(v, 3);
    ShrAgain(v, 4);
    ShrAgain(v, 5);
    ShrAgain(v, 6);
  }

  lemma {:induction false} ShrAgain(v: nat, k: nat)
    ensures Shr(v, k + 1) == Shr(v, k) / 2
  {
    if k > 0 { ShrAgain(v / 2, k - 1); }
  }

  /** Bit i from the top of an n-bit number is its bit n - 1 - i. */
  lemma {:induction false} NatBitsAt(v: nat, n: nat, i: nat)
    requires i < n
    ensures NatBits(v, n)[i] == (Shr(v, n - 1 - i) % 2 == 1)
  {
    if i < n - 1 { NatBitsAt(v / 2, n - 1, i); }
  }

  /** An octet's bits, most significant first. */
  lemma OctetBits(b: byte)
    ensures ByteBits(b) == [b / 128 % 2 == 1, b / 64 % 2 == 1, b / 32 % 2 == 1, b / 16 % 2 == 1,
                            b / 8 % 2 == 1, b / 4 % 2 == 1, b / 2 % 2 == 1, b % 2 == 1]
  {
    hide NatBits, Shr;
    forall i: nat | i < 8
      ensures ByteBits(b)[i] == (Shr(b, 7 - i) % 2 == 1)
    {
      NatBitsAt(b, 8, i);
    }
    ShrSteps(b);
  }

  // ----- octets and bits are inverse -----

  lemma ByteBitsToByte(b: byte)
    ensures ToByte(ByteBits(b)) == b
  {
    Shift8(b);
    NatBitsValue(b, 8);
  }

  lemma ToByteBits(bits: seq<bool>)
    requires |bits| == 8
    ensures ByteBits(ToByte(bits)) == bits
  {
    BitsNatBits(bits);
  }

  lemma {:induction false} BitsUpToConcat(a: seq<byte>, b: seq<byte>, k: nat)
    requires k <= |b|
    ensures BitsUpTo(a + b, |a| + k) == BytesBits(a) + BitsUpTo(b, k)
  {
    if k == 0 {
      BitsUpToPrefix(a, b, |a|);
    } else {
      BitsUpToConcat(a, b, k - 1);
      Assoc(BytesBits(a), BitsUpTo(b, k - 1), ByteBits(b[k - 1]));
    }
  }

  lemma {:induction false} BitsUpToPrefix(a: seq<byte>, b: seq<byte>, n: nat)
    requires n <= |a|
    ensures BitsUpTo(a + b, n) == BitsUpTo(a, n)
  {
    if n > 0 { BitsUpToPrefix(a, b, n - 1); }
  }

  lemma BytesBitsConcat(a: seq<byte>, b: seq<byte>)
    ensures BytesBits(a + b) == BytesBits(a) + BytesBits(b)
  {
    hide BitsUpTo;
    BitsUpToConcat(a, b, |b|);
  }

  lemma SingleByte(b: byte)
    ensures BytesBits([b]) == ByteBits(b)
  {
    assert BitsUpTo([b], 0) == [];
  }

  lemma {:induction false} OctetAt(s: seq<byte>, n: nat, i: nat)
    requires i < n <= |s|
    ensures BitsUpTo(s, n)[8 * i..8 * i + 8] == ByteBits(s[i])
  {
    if i < n - 1 {
      OctetAt(s, n - 1, i);
      assert BitsUpTo(s, n)[8 * i..8 * i + 8] == BitsUpTo(s, n - 1)[8 * i..8 * i + 8];
    }
  }

  lemma BytesBitsInjective(p: seq<byte>, q: seq<byte>)
    requires BytesBits(p) == BytesBits(q)
    ensures p == q
  {
    assert |p| == |q|;
    forall i | 0 <= i < |p|
      ensures p[i] == q[i]
    {
      OctetAt(p, |p|, i);
      OctetAt(q, |q|, i);
      ByteBitsToByte(p[i]);
      ByteBitsToByte(q[i]);
    }
  }

  lemma {:induction false} OctetsBits(bits: seq<bool>, k: nat)
    requires 8 * k <= |bits|
    ensures BytesBits(OctetsUpTo(bits, k)) == bits[..8 * k]
  {
    if k > 0 {
      var last := bits[8 * k - 8..8 * k];
      OctetsBits(bits, k - 1);
      BytesBitsConcat(OctetsUpTo(bits, k - 1), [ToByte(last)]);
      SingleByte(ToByte(last));
      ToByteBits(last);
      Cut(bits, 8 * k - 8, 8 * k);
    }
  }

  lemma BytesBitsPack(bits: seq<bool>)
    ensures BytesBits(Pack(bits)) == bits + Zeros(Padding(|bits|))
  {
    hide OctetsUpTo, BitsUpTo;
    var all := bits + Zeros(Padding(|bits|));
    OctetsBits(all, |all| / 8);
    assert all[..|all|] == all;
  }

  lemma PackBytesBits(s: seq<byte>)
    ensures Pack(BytesBits(s)) == s
  {
    hide Pack, BytesBits;
    BytesBitsPack(BytesBits(s));
    assert BytesBits(s) + Zeros(0) == BytesBits(s);
    BytesBitsInjective(Pack(BytesBits(s)), s);
  }

  lemma PackConcat(a: seq<bool>, b: seq<bool>)
    requires |a| % 8 == 0
    ensures Pack(a + b) == Pack(a) + Pack(b)
  {
    hide *;
    BytesBitsPack(a);
    BytesBitsPack(b);
    BytesBitsPack(a + b);
    PaddingAfter(a, b);
    BytesBitsConcat(Pack(a), Pack(b));
    Assoc(a, b, Zeros(Padding(|b|)));
    BytesBitsInjective(Pack(a + b), Pack(a) + Pack(b));
  }

  lemma PaddingAfter(a: seq<bool>, b: seq<bool>)
    requires |a| % 8 == 0
    ensures Padding(|a + b|) == Padding(|b|) && a + Zeros(Padding(|a|)) == a
  {
    assert |a + b| == |a| + |b|;
  }

  // ----- trailing zeros -----

  /** The sequence without its trailing false bits. */
  function Trim(bits: seq<bool>): (t: seq<bool>)
    ensures |t| <= |bits| && t == bits[..|t|]
    ensures t == [] || t[|t| - 1]
    ensures forall i :: |t| <= i < |bits| ==> !bits[i]
  {
    if bits == [] || bits[|bits| - 1] then bits else Trim(bits[..|bits| - 1])
  }

  /** Trim is the only prefix that ends in a 1 (or is empty) and drops zeros only. */
  lemma TrimUnique(bits: seq<bool>, t: seq<bool>)
    requires |t| <= |bits| && t == bits[..|t|]
    requires t == [] || t[|t| - 1]
    requires forall i :: |t| <= i < |bits| ==> !bits[i]
    ensures Trim(bits) == t
  {
    assert |Trim(bits)| == |t|;
  }

  lemma TrimZeros(bits: seq<bool>, n: nat)
    ensures Trim(bits + Zeros(n)) == Trim(bits)
  {
    var t := Trim(bits);
    assert (bits + Zeros(n))[..|t|] == bits[..|t|];
    TrimUnique(bits + Zeros(n), t);
  }
}
