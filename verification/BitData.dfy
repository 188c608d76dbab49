/**
 * asn_bit_data.c: the bit writer with its 32-octet staging buffer and the bit
 * reader. Clients see only sequences of bits: Contents() of a writer, Ahead()
 * of a reader. An OR of operands without a common bit is written as a sum.
 */
module BitData {
  import opened Bits

  const TMPSPACE: nat := 32

  // ----- words of octets -----

  function NatOfOctets(q: seq<byte>, n: nat): nat
    requires n <= |q|
  {
    if n == 0 then 0 else NatOfOctets(q, n - 1) * 256 + q[n - 1]
  }

  /** Octets read as a big-endian number. */
  function BytesNat(q: seq<byte>): nat {
    NatOfOctets(q, |q|)
  }

  lemma {:induction false} OctetsBitsNat(q: seq<byte>, n: nat)
    requires n <= |q|
    ensures NatOfOctets(q, n) < Pow2(8 * n)
    ensures NatBits(NatOfOctets(q, n), 8 * n) == BitsUpTo(q, n)
  {
    hide Pow2, Shl, NatBits;
    if n == 0 {
      NothingThere();
    } else {
      OctetsBitsNat(q, n - 1);
      var x := NatOfOctets(q, n - 1);
      Shift8(x);
      ShlBound(x, 8 * (n - 1), q[n - 1], 8);
      NatBitsConcat(x, 8 * (n - 1), q[n - 1], 8);
    }
  }

  lemma BytesNatBits(q: seq<byte>)
    ensures BytesNat(q) < Pow2(8 * |q|)
    ensures NatBits(BytesNat(q), 8 * |q|) == BytesBits(q)
  {
    OctetsBitsNat(q, |q|);
  }

  lemma BytesNatSmall(a: byte, b: byte, c: byte, d: byte)
    ensures BytesNat([a]) == a
    ensures BytesNat([a, b]) == a * 256 + b
    ensures BytesNat([a, b, c]) == (a * 256 + b) * 256 + c
    ensures BytesNat([a, b, c, d]) == ((a * 256 + b) * 256 + c) * 256 + d
  {
    assert NatOfOctets([a], 0) == 0;
    assert NatOfOctets([a, b], 1) == a;
    assert NatOfOctets([a, b, c], 1) == a;
    assert NatOfOctets([a, b, c], 2) == a * 256 + b;
    assert NatOfOctets([a, b, c, d], 1) == a;
    assert NatOfOctets([a, b, c, d], 2) == a * 256 + b;
    assert NatOfOctets([a, b, c, d], 3) == (a * 256 + b) * 256 + c;
  }

  /** The bits of the octets q between two positions, read as a number. */
  lemma WordField(q: seq<byte>, from: nat, n: nat)
    requires from + n <= 8 * |q|
    ensures Low(Shr(BytesNat(q), 8 * |q| - from - n), n) == BitsNat(BytesBits(q)[from..from + n])
  {
    hide *;
    var bits, off := BytesBits(q), from + n;
    BytesNatBits(q);
    NatBitsValue(BytesNat(q), 8 * |q|);
    BitsNatSplit(bits, off);
    BitsNatSplit(bits[..off], from);
  }

  /** First m bits of octet b, then the n-bit number v, then zeros: as a k-octet word. */
  function Spliced(b: byte, m: nat, v: nat, n: nat, k: nat): nat
    requires m < 8 && m + n <= 8 * k
  {
    Shl(Shr(b, 8 - m), 8 * k - m) + Shl(v, 8 * k - m - n)
  }

  lemma SplicedBits(b: byte, m: nat, v: nat, n: nat, k: nat)
    requires m < 8 && v < Pow2(n) && m + n <= 8 * k
    ensures NatBits(Spliced(b, m, v, n, k), 8 * k)[..m + n] == ByteBits(b)[..m] + NatBits(v, n)
  {
    hide Shl, Shr, NatBits, Pow2;
    var hi, r := Shr(b, 8 - m), 8 * k - m - n;
    NatBitsHead(b, 8, m);
    ShlShl(hi, n, r);
    ShlAdd(Shl(hi, n), v, r);
    NatBitsConcat(Shl(hi, n) + v, m + n, 0, r);
    NatBitsConcat(hi, m, v, n);
  }

  // ----- positions in a row of octets -----

  function FirstBits(data: seq<byte>, n: nat): (bits: seq<bool>)
    requires n <= 8 * |data|
    ensures |bits| == n
  {
    BytesBits(data)[..n]
  }

  lemma PrefixBits(pre: seq<byte>, q: seq<byte>, post: seq<byte>, off: nat)
    requires off <= 8 * |q|
    ensures BytesBits(pre + q + post)[..8 * |pre| + off] == BytesBits(pre) + BytesBits(q)[..off]
  {
    BytesBitsConcat(pre + q, post);
    BytesBitsConcat(pre, q);
  }

  lemma MiddleBits(pre: seq<byte>, q: seq<byte>, post: seq<byte>, from: nat, to: nat)
    requires from <= to <= 8 * |q|
    ensures BytesBits(pre + q + post)[8 * |pre| + from..8 * |pre| + to] == BytesBits(q)[from..to]
  {
    BytesBitsConcat(pre + q, post);
    BytesBitsConcat(pre, q);
  }

  // ----- writer -----

  lemma StoreContents(pre: seq<byte>, b: byte, rest: seq<byte>, q: seq<byte>, post: seq<byte>, m: nat, v: nat, n: nat)
    requires m <= 8 && m + n <= 8 * |q|
    requires BytesBits(q)[..m + n] == ByteBits(b)[..m] + NatBits(v, n)
    ensures FirstBits(pre + q + post, 8 * |pre| + m + n)
         == FirstBits(pre + [b] + rest, 8 * |pre| + m) + NatBits(v, n)
  {
    var was := FirstBits(pre + [b] + rest, 8 * |pre| + m);
    PrefixBits(pre, q, post, m + n);
    assert was == BytesBits(pre) + ByteBits(b)[..m] by {
      PrefixBits(pre, [b], rest, m);
      SingleByte(b);
    }
    Assoc(BytesBits(pre), ByteBits(b)[..m], NatBits(v, n));
  }

  /** The kept head of the first octet leaves room for the new bits. */
  lemma HeadRoom(b: byte, m: nat)
    requires m < 8
    ensures Shl(Shr(b, 8 - m), 8 - m) + Pow2(8 - m) <= 256
  {
    hide *;
    var hi, k := Shr(b, 8 - m), 8 - m;
    Shift8(b);
    ShrBound(b, 8, k);
    ShlMono(hi + 1, Pow2(m), k);
    ShlAdd(hi, 1, k);
    Pow2Shl(m, k);
    Pow2Shl(0, k);
    NothingThere();
  }

  /** The shifted number stays below the kept head, and both make the spliced word. */
  lemma SpliceParts(b: byte, m: nat, v: nat, n: nat, k: nat)
    requires m < 8 && v < Pow2(n) && m + n <= 8 * k && 1 <= k
    ensures var x, h := Shl(v, 8 * k - m - n), Shl(Shr(b, 8 - m), 8 - m);
            && x < Shl(Pow2(8 - m), 8 * (k - 1))
            && Spliced(b, m, v, n, k) == Shl(h, 8 * (k - 1)) + x
  {
    hide Shl, Shr, Pow2;
    ShlBound(v, n, 0, 8 * k - m - n);
    Pow2Shl(8 - m, 8 * (k - 1));
    ShlShl(Shr(b, 8 - m), 8 - m, 8 * (k - 1));
  }

  lemma SplicedBytes(b: byte, m: nat, v: nat, n: nat, q: seq<byte>)
    requires m < 8 && v < Pow2(n) && m + n <= 8 * |q|
    requires BytesNat(q) == Spliced(b, m, v, n, |q|)
    ensures BytesBits(q)[..m + n] == ByteBits(b)[..m] + NatBits(v, n)
  {
    hide Shl,Shr,NatBits,BytesBits;
    SplicedBits(b, m, v, n, |q|);
    BytesNatBits(q);
  }

  /** A word is its head octet plus x, cut into octets. */
  lemma WordCut2(h: nat, x: nat, p: nat)
    requires h + p <= 256 && x < 256 * p
    ensures h + x / 256 < 256 && BytesNat([h + x / 256, x % 256]) == 256 * h + x
  {
    BytesNatSmall(h + x / 256, x % 256, 0, 0);
  }

  lemma WordCut3(h: nat, x: nat, p: nat)
    requires h + p <= 256 && x < 65536 * p
    ensures h + x / 65536 < 256
    ensures BytesNat([h + x / 65536, x / 256 % 256, x % 256]) == 65536 * h + x
  {
    var y := x / 256;
    assert x / 65536 == y / 256;
    BytesNatSmall(h + y / 256, y % 256, x % 256, 0);
  }

  lemma WordCut4(h: nat, x: nat, p: nat)
    requires h + p <= 256 && x < 16777216 * p
    ensures h + x / 16777216 < 256
    ensures BytesNat([h + x / 16777216, x / 65536 % 256, x / 256 % 256, x % 256]) == 16777216 * h + x
  {
    var y := x / 256;
    var z := y / 256;
    assert x / 16777216 == z / 256 && x / 65536 == z;
    BytesNatSmall(h + z / 256, z % 256, y % 256, x % 256);
  }

  /** One writer branch: the k octets q of the word h above x hold the kept bits and then v. */
  lemma StoredBits(b: byte, m: nat, v: nat, n: nat, q: seq<byte>, h: nat, x: nat)
    requires m < 8 && v < Pow2(n) && m + n <= 8 * |q| && 1 <= |q| <= 4
    requires h == Shl(Shr(b, 8 - m), 8 - m) && x == Shl(v, 8 * |q| - m - n)
    requires |q| == 1 ==> BytesNat(q) == h + x
    requires |q| == 2 ==> BytesNat(q) == 256 * h + x
    requires |q| == 3 ==> BytesNat(q) == 65536 * h + x
    requires |q| == 4 ==> BytesNat(q) == 16777216 * h + x
    ensures BytesBits(q)[..m + n] == ByteBits(b)[..m] + NatBits(v, n)
  {
    hide *;
    SpliceParts(b, m, v, n, |q|);
    ShlOctets(h);
    SplicedBytes(b, m, v, n, q);
  }

  /** The room below the kept head, for each width of word. */
  lemma WordRoom(b: byte, m: nat, v: nat, n: nat, k: nat, h: nat, x: nat) returns (p: nat)
    requires m < 8 && v < Pow2(n) && m + n <= 8 * k && 1 <= k <= 4
    requires h == Shl(Shr(b, 8 - m), 8 - m) && x == Shl(v, 8 * k - m - n)
    ensures h + p <= 256
    ensures k == 1 ==> x < p
    ensures k == 2 ==> x < 256 * p
    ensures k == 3 ==> x < 65536 * p
    ensures k == 4 ==> x < 16777216 * p
  {
    hide *;
    p := Pow2(8 - m);
    HeadRoom(b, m);
    SpliceParts(b, m, v, n, k);
    ShlOctets(p);
  }

  /** A number of at least 24 bits is put as its top 24 bits and the rest. */
  lemma WideBits(v: nat, n: nat)
    requires n >= 24
    ensures NatBits(Shr(v, n - 24), 24) + NatBits(v, n - 24) == NatBits(v, n)
  {
    hide *;
    ShiftSplit(v, n - 24);
    NatBitsConcat(Shr(v, n - 24), 24, Low(v, n - 24), n - 24);
    NatBitsLow(v, n - 24);
  }

  /** asn_bit_outp_t: staged octets in tmpspace, everything before them already handed out. */
  class BitOut {
    const tmpspace: array<byte>
    var base: nat            // buffer - tmpspace
    var nboff: nat
    var nbits: nat
    var flushed: seq<byte>   // what the output callback has received

    ghost predicate Valid()
      reads this
    {
      && tmpspace.Length == TMPSPACE
      && 8 * base + nbits == 8 * TMPSPACE
      && nboff <= nbits
    }

    /** Every bit put so far. */
    ghost function Contents(): (bits: seq<bool>)
      requires Valid()
      reads this, tmpspace
      ensures |bits| == 8 * (|flushed| + base) + nboff
    {
      FirstBits(flushed + tmpspace[..], 8 * (|flushed| + base) + nboff)
    }

    constructor ()
      ensures Valid() && fresh(tmpspace)
      ensures Contents() == []
    {
      tmpspace := new byte[TMPSPACE](_ => 0);
      base, nboff, nbits, flushed := 0, 0, 8 * TMPSPACE, [];
    }

    method Normalize()
      requires Valid()
      modifies this
      ensures Valid() && nboff < 8
      ensures Contents() == old(Contents()) && nboff % 8 == old(nboff) % 8
    {
      if nboff >= 8 {
        var whole := nboff / 8;
        base := base + whole;
        nbits := nbits - 8 * whole;
        nboff := nboff - 8 * whole;
      }
    }

    /** Hands the complete octets to the output callback. */
    method FlushBytes()
      requires Valid() && nboff < 8
      modifies this, tmpspace
      ensures Valid() && base == 0 && nboff == old(nboff)
      ensures Contents() == old(Contents())
    {
      ghost var was, f := tmpspace[..], flushed;
      var complete := tmpspace[..base];
      flushed := flushed + complete;
      if nboff > 0 {
        tmpspace[0] := tmpspace[base];
      }
      base, nbits := 0, 8 * TMPSPACE;
      FlushKeepsBits(f, was, |complete|, tmpspace[..], nboff);
    }

    static lemma FlushKeepsBits(f: seq<byte>, was: seq<byte>, n: nat, now: seq<byte>, m: nat)
      requires n <= |was| && m < 8 && |now| == |was| > 0 && 8 * n + m <= 8 * |was|
      requires m > 0 ==> n < |was| && now[0] == was[n]
      ensures 8 * (|f| + n) + m <= 8 * |f + was[..n] + now|
      ensures FirstBits(f + was[..n] + now, 8 * (|f| + n) + m) == FirstBits(f + was, 8 * (|f| + n) + m)
    {
      var pre, k := f + was[..n], if m == 0 then 0 else 1;
      var q := was[n..n + k];
      assert q == now[..k];
      Cut(was, n, n + k);
      Assoc4(f, was[..n], q, was[n + k..]);
      Cut(now, k, k);
      Assoc(pre, q, now[k..]);
      PrefixBits(pre, q, now[k..], m);
      PrefixBits(pre, q, was[n + k..], m);
    }

    /** Storing the octets q over the staged ones at base, seen as bits. */
    static lemma StoredContents(f: seq<byte>, t: seq<byte>, base: nat, m: nat, v: nat, n: nat, q: seq<byte>)
      requires q != [] && base + |q| <= |t| && m < 8 && m + n <= 8 * |q|
      requires BytesBits(q)[..m + n] == ByteBits(t[base])[..m] + NatBits(v, n)
      ensures FirstBits(f + (t[..base] + q + t[base + |q|..]), 8 * (|f| + base) + m + n)
           == FirstBits(f + t, 8 * (|f| + base) + m) + NatBits(v, n)
    {
      hide FirstBits, BytesBits, NatBits, ByteBits;
      CutOne(t, base);
      Assoc4(f, t[..base], [t[base]], t[base + 1..]);
      Assoc4(f, t[..base], q, t[base + |q|..]);
      StoreContents(f + t[..base], t[base], t[base + 1..], q, t[base + |q|..], m, v, n);
    }

    /** Stores the octets q at the buffer position and counts n more bits. */
    method Store(q: seq<byte>, ghost v: nat, n: nat)
      requires Valid() && nboff < 8 && q != [] && base + |q| <= TMPSPACE
      requires nboff + n <= 8 * |q| && nboff + n <= nbits
      requires BytesBits(q)[..nboff + n] == ByteBits(tmpspace[base])[..nboff] + NatBits(v, n)
      modifies this, tmpspace
      ensures Valid() && Contents() == old(Contents()) + NatBits(v, n)
    {
      StoredContents(flushed, tmpspace[..], base, nboff, v, n, q);
      Poke(tmpspace, base, q);
      nboff := nboff + n;
    }

    static method Poke(a: array<byte>, base: nat, q: seq<byte>)
      requires base + |q| <= a.Length
      modifies a
      ensures a[..] == old(a[..base]) + q + old(a[base + |q|..])
    {
      for i := 0 to |q|
        invariant a[..base] == old(a[..base]) && a[base..base + i] == q[..i]
        invariant a[base + i..] == old(a[base + i..])
      {
        a[base + i] := q[i];
      }
    }

    /** Makes room for obits more bits. */
    method Prepare(obits: nat)
      requires Valid() && obits < 32
      modifies this, tmpspace
      ensures Valid() && nboff < 8 && nboff + obits <= nbits
      ensures Contents() == old(Contents())
    {
      Normalize();
      if nboff + obits > nbits {
        FlushBytes();
      }
    }

    /** Puts the low obits bits of the argument, at most 31 of them. */
    method PutFewBits(value: nat, obits: int) returns (rc: int)
      requires Valid()
      modifies this, tmpspace
      ensures Valid()
      ensures rc == (if 0 <= obits < 32 then 0 else -1)
      ensures rc == 0 ==> Contents() == old(Contents()) + NatBits(value, obits)
      ensures rc != 0 ==> Contents() == old(Contents())
      decreases obits
    {
      if obits <= 0 || obits >= 32 {
        return if obits != 0 then -1 else 0;
      }
      Prepare(obits);
      var bits, off := Low(value, obits), nboff + obits;
      NatBitsLow(value, obits);
      if off <= 31 {
        PutShort(bits, obits);
        return 0;
      }
      WideBits(bits, obits);
      Assoc(Contents(), NatBits(Shr(bits, obits - 24), 24), NatBits(bits, obits - 24));
      rc := PutFewBits(Shr(bits, obits - 24), 24);
      if rc == 0 {
        rc := PutFewBits(bits, obits - 24);
      }
    }

    /** The branches of asn_put_few_bits that touch one to four octets. */
    method PutShort(value: nat, obits: nat)
      requires Valid() && nboff < 8 && 0 < obits && nboff + obits <= 31 && nboff + obits <= nbits
      requires value < Pow2(obits)
      modifies this, tmpspace
      ensures Valid() && Contents() == old(Contents()) + NatBits(value, obits)
    {
      hide Shl, Shr, Pow2, NatBits, BytesNat, BytesBits, ByteBits, FirstBits;
      var m, off, b := nboff, nboff + obits, tmpspace[base];
      var h := Shl(Shr(b, 8 - m), 8 - m);   // buf[0] & omsk
      if off <= 8 {
        var x := Shl(value, 8 - off);
        ghost var p := WordRoom(b, m, value, obits, 1, h, x);
        BytesNatSmall(h + x, 0, 0, 0);
        StoredBits(b, m, value, obits, [h + x], h, x);
        Store([h + x], value, obits);
      } else if off <= 16 {
        var x := Shl(value, 16 - off);
        ghost var p := WordRoom(b, m, value, obits, 2, h, x);
        WordCut2(h, x, p);
        var q: seq<byte> := [h + x / 256, x % 256];
        StoredBits(b, m, value, obits, q, h, x);
        Store(q, value, obits);
      } else if off <= 24 {
        var x := Shl(value, 24 - off);
        ghost var p := WordRoom(b, m, value, obits, 3, h, x);
        WordCut3(h, x, p);
        var q: seq<byte> := [h + x / 65536, x / 256 % 256, x % 256];
        StoredBits(b, m, value, obits, q, h, x);
        Store(q, value, obits);
      } else {
        var x := Shl(value, 32 - off);
        ghost var p := WordRoom(b, m, value, obits, 4, h, x);
        WordCut4(h, x, p);
        var q: seq<byte> := [h + x / 16777216, x / 65536 % 256, x / 256 % 256, x % 256];
        StoredBits(b, m, value, obits, q, h, x);
        Store(q, value, obits);
      }
    }

    /** Puts the first n bits of the octets src, 24 at a time. */
    method PutManyBits(src: seq<byte>, n: nat) returns (rc: int)
      requires Valid() && n <= 8 * |src|
      modifies this, tmpspace
      ensures Valid()
      ensures rc == 0 && Contents() == old(Contents()) + FirstBits(src, n)
    {
      ghost var was := Contents();
      var i, left := 0, n;
      assert was + FirstBits(src, 0) == was;
      while left >= 24
        invariant Valid() && 8 * i + left == n
        invariant Contents() == was + FirstBits(src, 8 * i)
      {
        PutWord(was, src, i, 3, 24);
        i, left := i + 3, left - 24;
      }
      if left > 0 {
        PutWord(was, src, i, (left + 7) / 8, left);
      }
      rc := 0;
    }

    /** One round: the first n bits of the k octets at src[i]. */
    method PutWord(ghost was: seq<bool>, src: seq<byte>, i: nat, k: nat, n: nat)
      requires Valid() && i + k <= |src| && n <= 8 * k && n <= 24
      requires Contents() == was + FirstBits(src, 8 * i)
      modifies this, tmpspace
      ensures Valid() && Contents() == was + FirstBits(src, 8 * i + n)
    {
      NextBits(was, src, i, k, n);
      var rc := PutFewBits(Shr(BytesNat(src[i..i + k]), 8 * k - n), n);
    }

    static lemma NextBits(was: seq<bool>, src: seq<byte>, i: nat, k: nat, n: nat)
      requires i + k <= |src| && n <= 8 * k
      ensures (was + FirstBits(src, 8 * i)) + NatBits(Shr(BytesNat(src[i..i + k]), 8 * k - n), n)
           == was + FirstBits(src, 8 * i + n)
    {
      HeadOfWord(src[i..i + k], n);
      FirstBitsExtend(src, i, k, n);
      Assoc(was, FirstBits(src, 8 * i), FirstBits(src[i..i + k], n));
    }

    /** The low byte of the position decides the alignment of the next put. */
    lemma PositionMod8()
      requires Valid()
      ensures |Contents()| % 8 == nboff % 8
    {
    }
  }

  lemma HeadOfWord(q: seq<byte>, n: nat)
    requires n <= 8 * |q|
    ensures NatBits(Shr(BytesNat(q), 8 * |q| - n), n) == FirstBits(q, n)
  {
    BytesNatBits(q);
    NatBitsHead(BytesNat(q), 8 * |q|, n);
  }

  lemma FirstBitsExtend(src: seq<byte>, i: nat, k: nat, n: nat)
    requires i + k <= |src| && n <= 8 * k
    ensures FirstBits(src, 8 * i + n) == FirstBits(src, 8 * i) + FirstBits(src[i..i + k], n)
  {
    Cut(src, i, i + k);
    PrefixBits(src[..i], src[i..i + k], src[i + k..], n);
    PrefixBits(src[..i], src[i..i + k], src[i + k..], 0);
  }

  // ----- reader -----

  /** n bits at bit offset from of the k octets at base. */
  function Field(data: seq<byte>, base: nat, k: nat, from: nat, n: nat): (v: nat)
    requires base + k <= |data| && 1 <= k <= 4 && from + n <= 8 * k
    ensures v == BitsNat(BytesBits(data)[8 * base + from..8 * base + from + n])
  {
    FieldAt(data, base, k, from, n);
    Low(Shr(BytesNat(data[base..base + k]), 8 * k - from - n), n)
  }

  lemma FieldAt(data: seq<byte>, base: nat, k: nat, from: nat, n: nat)
    requires base + k <= |data| && from + n <= 8 * k
    ensures Low(Shr(BytesNat(data[base..base + k]), 8 * k - from - n), n)
         == BitsNat(BytesBits(data)[8 * base + from..8 * base + from + n])
  {
    Cut(data, base, base + k);
    MiddleBits(data[..base], data[base..base + k], data[base + k..], from, from + n);
    WordField(data[base..base + k], from, n);
  }

  lemma TwoFields(bits: seq<bool>, n: nat)
    requires 24 <= n <= |bits|
    ensures BitsNat(bits[..n]) == BitsNat(bits[..n - 24]) * 16777216 + BitsNat(bits[n - 24..][..24])
  {
    assert bits[..n] == bits[..n - 24] + bits[n - 24..][..24];
    BitsNatConcat(bits[..n - 24], bits[n - 24..][..24]);
    ShlOctets(BitsNat(bits[..n - 24]));
  }

  /** asn_bit_data_t without a refill callback: a position inside the octets data. */
  class BitIn {
    const data: seq<byte>
    var base: nat     // buffer, as an index into data
    var nboff: nat
    var nbits: nat
    var moved: nat

    ghost predicate Valid()
      reads this
    {
      8 * base + nbits <= 8 * |data| && nboff <= nbits
    }

    /** The bits not read yet. */
    ghost function Ahead(): (bits: seq<bool>)
      requires Valid()
      reads this
      ensures |bits| == nbits - nboff
    {
      BytesBits(data)[8 * base + nboff..8 * base + nbits]
    }

    /** Where the stream ends, in bits from data; the position's alignment is End() - |Ahead()|. */
    ghost function End(): nat
      reads this
    {
      8 * base + nbits
    }

    ghost function Position(): (n: nat)
      requires Valid()
      reads this
      ensures n == End() - |Ahead()| && n % 8 == nboff % 8
    {
      8 * base + nboff
    }

    constructor (data: seq<byte>, base: nat, nboff: nat, nbits: nat)
      requires 8 * base + nbits <= 8 * |data| && nboff <= nbits
      ensures Valid() && this.data == data && this.base == base && this.nboff == nboff && this.nbits == nbits
    {
      this.data, this.base, this.nboff, this.nbits, this.moved := data, base, nboff, nbits, 0;
    }

    method Normalize()
      requires Valid()
      modifies this
      ensures Valid() && nboff < 8 && moved == old(moved) && End() == old(End())
      ensures Ahead() == old(Ahead())
    {
      if nboff >= 8 {
        var whole := nboff / 8;
        base, nbits, nboff := base + whole, nbits - 8 * whole, nboff - 8 * whole;
      }
    }

    /** The branches of asn_get_few_bits that look at one to four octets. */
    method PeekShort(n: nat) returns (value: nat)
      requires Valid() && nboff < 8 && nboff + n <= 31 && nboff + n <= nbits
      ensures value == BitsNat(Ahead()[..n])
    {
      var off := nboff + n;
      assert Ahead()[..n] == BytesBits(data)[8 * base + nboff..8 * base + nboff + n];
      if off <= 8 {
        value := if n > 0 then Field(data, base, 1, nboff, n) else 0;
      } else if off <= 16 {
        value := Field(data, base, 2, nboff, n);
      } else if off <= 24 {
        value := Field(data, base, 3, nboff, n);
      } else {
        value := Field(data, base, 4, nboff, n);
      }
    }

    /** More than 31 bits past the octet boundary: read from a copy, in two parts. */
    method PeekWide(n: nat) returns (value: nat)
      requires Valid() && nboff < 8 && 24 < n <= 31 && nboff + n <= nbits
      ensures value == BitsNat(Ahead()[..n])
      decreases n, 0
    {
      hide BytesBits, BitsNat;
      var tpd := new BitIn(data, base, nboff, nbits);
      ghost var bits := Ahead();
      assert tpd.Ahead() == bits;
      var hi := tpd.GetFewBits(n - 24);
      var lo := tpd.GetFewBits(24);
      TwoFields(bits, n);
      value := hi * 16777216 + lo;
    }

    /** Reads n bits, at most 31, as a number; -1 leaves the position alone. */
    method GetFewBits(n: int) returns (value: int)
      requires Valid()
      modifies this
      ensures Valid() && End() == old(End())
      ensures !(0 <= n <= 31 && n <= |old(Ahead())|) ==> value == -1 && Ahead() == old(Ahead()) && moved == old(moved)
      ensures 0 <= n <= 31 && n <= |old(Ahead())| ==>
                && value == BitsNat(old(Ahead())[..n])
                && Ahead() == old(Ahead())[n..]
                && moved == old(moved) + n
      decreases n, 1
    {
      if n < 0 || n > nbits - nboff {
        return -1;
      }
      Normalize();
      if nboff + n <= 31 {
        value := PeekShort(n);
      } else if n <= 31 {
        value := PeekWide(n);
      } else {
        return -1;
      }
      Advance(n);
    }

    method Advance(n: nat)
      requires Valid() && n <= nbits - nboff
      modifies this
      ensures Valid() && End() == old(End()) && Ahead() == old(Ahead())[n..] && moved == old(moved) + n
    {
      moved, nboff := moved + n, nboff + n;
    }

    /** Reads n bits into left-aligned octets, 24 bits at a time. */
    method GetManyBits(n: nat) returns (rc: int, dst: seq<byte>)
      requires Valid()
      modifies this
      ensures Valid() && End() == old(End())
      ensures rc == (if n <= |old(Ahead())| then 0 else -1)
      ensures rc == 0 ==> dst == Pack(old(Ahead())[..n]) && Ahead() == old(Ahead())[n..]
    {
      hide Pack;
      ghost var was := Ahead();
      var left: nat := n;
      dst := [];
      assert Pack(was[..0]) == [];
      while left >= 24
        invariant Valid() && left <= n && (n - left) % 8 == 0 && n - left <= |was|
        invariant End() == old(End()) && Ahead() == was[n - left..] && dst == Pack(was[..n - left])
      {
        var q;
        rc, q := GetWord(was, n - left, 24);
        if rc < 0 {
          return;
        }
        left, dst := left - 24, dst + q;
      }
      rc := 0;
      if left > 0 {
        var q;
        rc, q := GetWord(was, n - left, left);
        dst := dst + q;
        assert n - left + left == n;
      }
    }

    /** One round: n bits as left-aligned octets. */
    method GetWord(ghost was: seq<bool>, ghost done: nat, n: nat) returns (rc: int, q: seq<byte>)
      requires Valid() && done <= |was| && done % 8 == 0 && 0 < n <= 24 && Ahead() == was[done..]
      modifies this
      ensures Valid() && End() == old(End())
      ensures rc == (if done + n <= |was| then 0 else -1)
      ensures rc == 0 ==> Pack(was[..done]) + q == Pack(was[..done + n]) && Ahead() == was[done + n..]
    {
      var value := GetFewBits(n);
      if value < 0 {
        return -1, [];
      }
      var k := (n + 7) / 8;
      rc, q := 0, NatBytes(Shl(value, 8 * k - n), k);
      NextOctets(was, done, n, value);
    }

    static lemma NextOctets(was: seq<bool>, done: nat, n: nat, value: nat)
      requires done % 8 == 0 && done + n <= |was| && value == BitsNat(was[done..][..n])
      ensures Pack(was[..done]) + NatBytes(Shl(value, 8 * ((n + 7) / 8) - n), (n + 7) / 8) == Pack(was[..done + n])
      ensures was[done..][n..] == was[done + n..]
    {
      hide Pack, BitsNat, NatBytes, Shl;
      var bits := was[done..][..n];
      assert was[..done + n] == was[..done] + bits;
      PackConcat(was[..done], bits);
      PackWord(bits);
    }
  }

  /** A number cut into k octets, most significant first. */
  function NatBytes(v: nat, k: nat): (q: seq<byte>)
    ensures |q| == k
  {
    if k == 0 then [] else NatBytes(v / 256, k - 1) + [v % 256]
  }

  lemma OctetSplit(v: nat)
    ensures v == Shl(v / 256, 8) + v % 256 && v % 256 < Pow2(8)
  {
    Shift8(v);
    Shift8(v / 256);
  }

  lemma {:induction false} NatBytesBits(v: nat, k: nat)
    ensures BytesBits(NatBytes(v, k)) == NatBits(v, 8 * k)
  {
    if k > 0 {
      NatBytesBits(v / 256, k - 1);
      BytesBitsConcat(NatBytes(v / 256, k - 1), [v % 256]);
      SingleByte(v % 256);
      OctetSplit(v);
      NatBitsConcat(v / 256, 8 * (k - 1), v % 256, 8);
    }
  }

  /** Storing the shifted number of some bits octet by octet packs them. */
  lemma PackWord(bits: seq<bool>)
    ensures var k := (|bits| + 7) / 8;
            NatBytes(Shl(BitsNat(bits), 8 * k - |bits|), k) == Pack(bits)
  {
    hide Pack, BytesBits, NatBytes, Shl, NatBits, BitsNat;
    var k := (|bits| + 7) / 8;
    var pad := 8 * k - |bits|;
    var v := Shl(BitsNat(bits), pad);
    NatBytesBits(v, k);
    ShiftedBits(bits, pad);
    BytesBitsPack(bits);
    assert pad == Padding(|bits|);
    BytesBitsInjective(NatBytes(v, k), Pack(bits));
  }
}
