/**
 * uper_support.c and aper_support.c: length determinants (section 11.9 of
 * ITU-T X.691) and the fragmentation they drive. A frame is what the do/while
 * loops of the PER encoders write for a payload counted in units of one bit
 * (BIT STRING) or eight bits (ANY).
 */
module PerFraming {
  import opened Bits
  import opened BitData

  /** Fragments are multiples of 16K units. */
  const K16: nat := 16384

  // ----- one length determinant -----

  /** How many of n units the next determinant covers. */
  function Chunk(n: nat): (m: nat)
    ensures m <= n && (n > 0 ==> m > 0)
    ensures n < K16 ==> m == n
    ensures n >= K16 ==> m in {K16, 2 * K16, 3 * K16, 4 * K16}
  {
    if n < K16 then n else if n / K16 > 4 then 4 * K16 else n / K16 * K16
  }

  /** The bits uper_put_length writes for n. */
  function Determinant(n: nat): (bits: seq<bool>)
    ensures |bits| == if 128 <= n < K16 then 16 else 8
  {
    if n <= 127 then NatBits(n, 8)
    else if n < K16 then NatBits(0x8000 + n, 16)
    else NatBits(0xC0 + Chunk(n) / K16, 8)
  }

  datatype Length = Length(value: nat, used: nat, repeat: bool) | NoLength

  /** The unconstrained branch of uper_get_length on the bits ahead. */
  function GetDeterminant(s: seq<bool>): (r: Length)
    ensures r.Length? ==> 8 <= r.used <= |s|
    ensures r.Length? ==> r.repeat == (r.value >= K16)
    ensures r.Length? && r.repeat ==> r.value in {K16, 2 * K16, 3 * K16, 4 * K16}
  {
    if |s| < 8 then NoLength
    else
      var v := BitsNat(s[..8]);
      assert v < 256 by { Shift8(0); }
      if v < 128 then Length(v, 8, false)
      else if v < 192 then
        if |s| < 16 then NoLength
        else
          assert BitsNat(s[8..16]) < 256 by { Shift8(0); }
          Length(v % 64 * 256 + BitsNat(s[8..16]), 16, false)
      else
        var m := v % 64;
        if m < 1 || m > 4 then NoLength else Length(m * K16, 8, true)
  }

  /** uper_get_length on the bits ahead: a fixed-width count above lb, or a determinant. */
  function GetLength(s: seq<bool>, ebits: int, lb: nat): (r: Length)
    ensures r.Length? ==> r.used <= |s| && (r.used > 0 || ebits == 0)
    ensures r.Length? && r.repeat ==> !(0 <= ebits <= 16) && r.value in {K16, 2 * K16, 3 * K16, 4 * K16}
  {
    if 0 <= ebits <= 16 then
      if |s| < ebits then NoLength else Length(BitsNat(s[..ebits]) + lb, ebits, false)
    else GetDeterminant(s)
  }

  /** Reading a determinant undoes writing it, whatever follows. */
  lemma DeterminantInverse(n: nat, rest: seq<bool>)
    ensures GetDeterminant(Determinant(n) + rest) == Length(Chunk(n), |Determinant(n)|, n >= K16)
  {
    hide NatBits, BitsNat, Pow2;
    var s := Determinant(n) + rest;
    Widths();
    if n <= 127 {
      NatBitsValue(n, 8);
      assert s[..8] == Determinant(n);
    } else if n < K16 {
      var w := 0x8000 + n;
      NatBitsValue(w, 16);
      Octets16(w);
      assert s[..8] == Determinant(n)[..8] && s[8..16] == Determinant(n)[8..];
    } else {
      NatBitsValue(0xC0 + Chunk(n) / K16, 8);
      assert s[..8] == Determinant(n);
    }
  }

  lemma Widths()
    ensures Pow2(8) == 256 && Pow2(16) == 65536
  {
    Pow2Shl(8, 8);
    Shift8(0);
    ShlOctet(256);
  }

  lemma Octets16(w: nat)
    requires w < 65536
    ensures BitsNat(NatBits(w, 16)[..8]) == w / 256 && BitsNat(NatBits(w, 16)[8..]) == w % 256
  {
    hide NatBits, BitsNat, Pow2, Shr, Low;
    Widths();
    NatBitsValue(w, 16);
    BitsNatSplit(NatBits(w, 16), 8);
    Shift8(w);
  }

  /** uper_put_length. needEom asks the caller for a zero-length terminator. */
  method UperPutLength(po: BitOut, length: nat) returns (saved: int, needEom: bool)
    requires po.Valid()
    modifies po, po.tmpspace
    ensures po.Valid() && po.Contents() == old(po.Contents()) + Determinant(length)
    ensures saved == Chunk(length)
    ensures needEom == (length >= K16 && Chunk(length) == length)
  {
    hide NatBits;
    var rc;
    if length <= 127 {
      rc := po.PutFewBits(length, 8);
      return length, false;
    } else if length < 16384 {
      rc := po.PutFewBits(0x8000 + length, 16);   // length | 0x8000
      return length, false;
    }
    needEom := length % 16384 == 0;
    var m := length / 16384;
    if m > 4 {
      needEom, m := false, 4;
    }
    rc := po.PutFewBits(0xC0 + m, 8);
    saved := m * 16384;
  }

  /** uper_get_length. */
  method UperGetLength(pd: BitIn, ebits: int, lb: nat) returns (value: int, repeat: bool)
    requires pd.Valid()
    modifies pd
    ensures pd.Valid() && pd.End() == old(pd.End())
    ensures var r := GetLength(old(pd.Ahead()), ebits, lb);
            && (r.NoLength? ==> value == -1)
            && (r.Length? ==> value == r.value && repeat == r.repeat && pd.Ahead() == old(pd.Ahead())[r.used..])
  {
    hide BitsNat;
    repeat := false;
    if ebits >= 0 && ebits <= 16 {
      value := pd.GetFewBits(ebits);
      value := if value >= 0 then value + lb else value;
      return;
    }
    value, repeat := GetUnconstrained(pd);
  }

  /** The branches of uper_get_length for section 11.9.3 of ITU-T X.691. */
  method GetUnconstrained(pd: BitIn) returns (value: int, repeat: bool)
    requires pd.Valid()
    modifies pd
    ensures pd.Valid() && pd.End() == old(pd.End())
    ensures var r := GetDeterminant(old(pd.Ahead()));
            && (r.NoLength? ==> value == -1)
            && (r.Length? ==> value == r.value && repeat == r.repeat && pd.Ahead() == old(pd.Ahead())[r.used..])
  {
    hide BitsNat;
    Shift8(0);
    repeat := false;
    value := pd.GetFewBits(8);
    if value >= 0 {
      if value < 128 {
        return;
      } else if value < 192 {
        var low := pd.GetFewBits(8);
        ghost var ahead := old(pd.Ahead());
        if |ahead| >= 16 {
          assert ahead[8..][..8] == ahead[8..16];
          assert ahead[8..][8..] == ahead[16..];
        }
        value := if low < 0 then -1 else value % 64 * 256 + low;
        return;
      }
      value := value % 64;
      if value < 1 || value > 4 {
        return -1, repeat;
      }
      repeat := true;
      value := 16384 * value;
    }
  }

  // ----- frames -----

  predicate Unit(u: nat) {
    u == 1 || u == 8
  }

  function Scale(n: nat, u: nat): nat {
    if u == 8 then 8 * n else n
  }

  /** The whole encoding of n units: determinants, fragments and, if needed, a terminator. */
  function Frame(p: seq<bool>, n: nat, u: nat): (bits: seq<bool>)
    requires Unit(u) && |p| == Scale(n, u)
    decreases n
  {
    var m := Chunk(n);
    Determinant(n) + p[..Scale(m, u)] +
      (if m < n then Frame(p[Scale(m, u)..], n - m, u) else Terminator(n))
  }

  function Terminator(n: nat): seq<bool> {
    if n >= K16 then Determinant(0) else []
  }

  /** What the decoder loops read: the payload, the bits used and the raw lengths met. */
  datatype Unframed = Payload(bits: seq<bool>, used: nat, lengths: seq<nat>) | Starved

  /** The decoder loop; only a determinant read without effective bits asks to repeat. */
  function Unframe(s: seq<bool>, ebits: int, lb: nat, u: nat): (r: Unframed)
    requires Unit(u)
    ensures r.Payload? ==> r.used <= |s| && r.lengths != []
    decreases |s|
  {
    hide GetLength;
    match GetLength(s, ebits, lb)
    case NoLength => Starved
    case Length(n, k, repeat) =>
      var w := Scale(n, u);
      if w > |s| - k then Starved
      else if !repeat then Payload(s[k..][..w], k + w, [n])
      else Prepend(s[k..][..w], k + w, [n], Unframe(s[k + w..], ebits, lb, u))
  }

  /** A fragment read before the rest. */
  function Prepend(bits: seq<bool>, used: nat, lengths: seq<nat>, r: Unframed): Unframed {
    match r
    case Starved => Starved
    case Payload(b, k, l) => Payload(bits + b, used + k, lengths + l)
  }

  lemma PrependTwice(b1: seq<bool>, k1: nat, l1: seq<nat>, b2: seq<bool>, k2: nat, l2: seq<nat>, r: Unframed)
    ensures Prepend(b1, k1, l1, Prepend(b2, k2, l2, r)) == Prepend(b1 + b2, k1 + k2, l1 + l2, r)
  {
    if r.Payload? {
      Assoc(b1, b2, r.bits);
      Assoc(l1, l2, r.lengths);
    }
  }

  lemma UnframeStep(d: seq<bool>, f: seq<bool>, rest: seq<bool>, n: nat, ebits: int, lb: nat, u: nat)
    requires Unit(u) && ebits < 0 && d == Determinant(n) && |f| == Scale(Chunk(n), u)
    ensures var s := d + f + rest;
            Unframe(s, ebits, lb, u) ==
              if n < K16 then Payload(f, |d| + |f|, [n])
              else Prepend(f, |d| + |f|, [Chunk(n)], Unframe(rest, ebits, lb, u))
  {
    hide Determinant, GetDeterminant;
    var s := d + f + rest;
    DeterminantInverse(n, f + rest);
    Assoc(d, f, rest);
    assert s[|d|..][..|f|] == f && s[|d| + |f|..] == rest;
  }

  /** The decoder loop undoes the encoder loop, whatever follows the frame. */
  lemma {:induction false} FrameInverse(p: seq<bool>, n: nat, ebits: int, lb: nat, u: nat, rest: seq<bool>)
    requires Unit(u) && ebits < 0 && |p| == Scale(n, u)
    ensures var r := Unframe(Frame(p, n, u) + rest, ebits, lb, u);
            r.Payload? && r.bits == p && r.used == |Frame(p, n, u)|
    decreases n
  {
    hide Determinant, GetDeterminant, Unframe, Chunk;
    var m := Chunk(n);
    var d, f, q := Determinant(n), p[..Scale(m, u)], p[Scale(m, u)..];
    var tail := if m < n then Frame(q, n - m, u) else Terminator(n);
    assert Frame(p, n, u) + rest == d + f + (tail + rest);
    UnframeStep(d, f, tail + rest, n, ebits, lb, u);
    assert p == f + q;
    if m < n {
      FrameInverse(q, n - m, ebits, lb, u, rest);
    } else if n >= K16 {
      UnframeStep(Determinant(0), [], rest, 0, ebits, lb, u);
      assert Determinant(0) + [] + rest == tail + rest;
    } else {
      assert tail == [];
    }
  }

  function Sum(s: seq<nat>): nat {
    if s == [] then 0 else s[0] + Sum(s[1..])
  }

  /** Shape of the raw lengths of a frame of n units. */
  ghost predicate WellFramed(lengths: seq<nat>, n: nat) {
    && lengths != []
    && Sum(lengths) == n
    && lengths[|lengths| - 1] < 16384
    && (forall i :: 0 <= i < |lengths| - 1 ==> lengths[i] in {16384, 32768, 49152, 65536})
    && (forall i :: 0 <= i < |lengths| - 2 ==> lengths[i] == 65536)
    && ((|lengths| > 1 && lengths[|lengths| - 1] == 0) <==> (n > 0 && n % 16384 == 0))
  }

  /**
   * Framing: the fragments add up to n, each but the last is 16K, 32K, 48K or 64K
   * units (64K before the last full one), the last is shorter than 16K, and a
   * zero-length terminator is there exactly when n is a positive multiple of 16K.
   */
  lemma {:induction false} FramingShape(p: seq<bool>, n: nat, ebits: int, lb: nat, u: nat, rest: seq<bool>)
    requires Unit(u) && ebits < 0 && |p| == Scale(n, u)
    ensures Unframe(Frame(p, n, u) + rest, ebits, lb, u).Payload?
    ensures WellFramed(Unframe(Frame(p, n, u) + rest, ebits, lb, u).lengths, n)
    decreases n
  {
    hide Determinant, GetDeterminant, Unframe;
    var m := Chunk(n);
    var d, f, q := Determinant(n), p[..Scale(m, u)], p[Scale(m, u)..];
    var tail := if m < n then Frame(q, n - m, u) else Terminator(n);
    assert Frame(p, n, u) + rest == d + f + (tail + rest);
    UnframeStep(d, f, tail + rest, n, ebits, lb, u);
    if m < n {
      FramingShape(q, n - m, ebits, lb, u, rest);
      WellFramedMore(n, Unframe(tail + rest, ebits, lb, u).lengths);
    } else if n >= K16 {
      UnframeStep(Determinant(0), [], rest, 0, ebits, lb, u);
      assert Determinant(0) + [] + rest == tail + rest;
      assert f + [] == f;
      WellFramedEnd(n);
    } else {
      assert Sum([n]) == n + Sum([n][1..]) && [n][1..] == [];
    }
  }

  lemma WellFramedMore(n: nat, lengths: seq<nat>)
    requires Chunk(n) < n && WellFramed(lengths, n - Chunk(n))
    ensures WellFramed([Chunk(n)] + lengths, n)
  {
    var all := [Chunk(n)] + lengths;
    assert all[1..] == lengths;
    assert forall i :: 0 < i < |all| ==> all[i] == lengths[i - 1];
    var r := n - Chunk(n);
    assert n % K16 == r % K16;
    if |lengths| == 1 {
      assert lengths[1..] == [];
      assert Sum(lengths[1..]) == 0;
      assert Sum(lengths) == lengths[0] + Sum(lengths[1..]);
    } else {
      assert Sum(lengths) >= lengths[0] >= K16;
      assert Chunk(n) == 4 * K16;
    }
  }

  lemma WellFramedEnd(n: nat)
    requires Chunk(n) == n >= K16
    ensures WellFramed([Chunk(n)] + [0], n)
  {
    var all := [n] + [0];
    assert all[1..] == [0] && [0][1..] == [];
    assert Sum([0]) == 0;
  }

  // ----- in literal octets -----

  /** The three forms of section 11.9.3: one octet, two octets, or a fragment count of 1 to 4. */
  lemma DeterminantOctets(n: nat)
    ensures n <= 127 ==> |Determinant(n)| == 8 && BitsNat(Determinant(n)) == n
    ensures 128 <= n < 16384 ==> |Determinant(n)| == 16 && BitsNat(Determinant(n)) == 32768 + n
    ensures n >= 16384 ==> |Determinant(n)| == 8
                           && BitsNat(Determinant(n)) == 192 + if n / 16384 < 4 then n / 16384 else 4
  {
    hide NatBits, BitsNat, Pow2;
    Widths();
    if n <= 127 {
      NatBitsValue(n, 8);
    } else if n < 16384 {
      NatBitsValue(0x8000 + n, 16);
    } else {
      NatBitsValue(0xC0 + Chunk(n) / 16384, 8);
    }
  }

  /** The layout of a frame below 16K units: a determinant of one or two octets and all units. */
  lemma FrameOctets(p: seq<bool>, n: nat, u: nat)
    requires Unit(u) && n < 16384 && |p| == Scale(n, u)
    ensures var f := Frame(p, n, u);
            if n <= 127 then |f| == 8 + |p| && BitsNat(f[..8]) == n && f[8..] == p
            else |f| == 16 + |p| && BitsNat(f[..16]) == 32768 + n && f[16..] == p
  {
    hide Determinant, NatBits, BitsNat;
    DeterminantOctets(n);
    var d, f := Determinant(n), Frame(p, n, u);
    assert p[..|p|] == p && d + p + [] == d + p;
    assert f == d + p;
    assert f[..|d|] == d && f[|d|..] == p;
  }

  /** From 16K units on: an octet 193 to 196, 16K to 64K units, and the frame of the rest, be it empty. */
  lemma FragmentOctets(p: seq<bool>, n: nat, u: nat)
    requires Unit(u) && n >= 16384 && |p| == Scale(n, u)
    ensures var f, q := Frame(p, n, u), if n / 16384 < 4 then n / 16384 else 4;
            var w := if u == 8 then 131072 * q else 16384 * q;
            && 1 <= q && w <= |p| && 8 + w <= |f|
            && BitsNat(f[..8]) == 192 + q
            && f[8..8 + w] == p[..w]
            && f[8 + w..] == Frame(p[w..], n - 16384 * q, u)
  {
    hide Determinant, NatBits, BitsNat, Terminator;
    DeterminantOctets(n);
    var q, m, d := if n / 16384 < 4 then n / 16384 else 4, Chunk(n), Determinant(n);
    var w := Scale(m, u);
    var tail := if m < n then Frame(p[w..], n - m, u) else Terminator(n);
    assert m == 16384 * q && Frame(p, n, u) == d + p[..w] + tail;
    Three(d, p[..w], tail);
    if m == n {
      assert p[w..] == [];
      Empty(u);
    }
  }

  lemma Three<T>(a: seq<T>, b: seq<T>, c: seq<T>)
    ensures var s := a + b + c;
            |s| == |a| + |b| + |c| && s[..|a|] == a && s[|a|..|a| + |b|] == b && s[|a| + |b|..] == c
  {
  }

  /** The frame of nothing is the terminator, a zero octet. */
  lemma Empty(u: nat)
    requires Unit(u)
    ensures Frame([], 0, u) == Zeros(8) && forall n | n >= 16384 :: Terminator(n) == Zeros(8)
  {
    hide NatBits;
    NatBitsZero(8);
    assert Determinant(0) + [] == Determinant(0);
  }

  /** Which determinants uper_get_length accepts: below 128, two octets below 192, and 193 to 196. */
  lemma GetDeterminantExactly(s: seq<bool>)
    ensures var first, second := if |s| >= 8 then BitsNat(s[..8]) else 0, if |s| >= 16 then BitsNat(s[8..16]) else 0;
            GetDeterminant(s) ==
              if |s| >= 8 && first < 128 then Length(first, 8, false)
              else if |s| >= 16 && first < 192 then Length((first - 128) * 256 + second, 16, false)
              else if |s| >= 8 && 193 <= first <= 196 then Length(16384 * (first - 192), 8, true)
              else NoLength
  {
    hide BitsNat, Pow2;
    Widths();
    if |s| >= 8 {
      assert BitsNat(s[..8]) < Pow2(|s[..8]|);
    }
  }

  /**
   * What a decoder makes of any stream, whatever its fragment sizes: the last
   * fragment ends it, one of 16K to 64K units is put before what the rest gives,
   * and a bad determinant or missing bits starve it.
   */
  lemma UnframeExactly(s: seq<bool>, ebits: int, lb: nat, u: nat)
    requires Unit(u) && !(0 <= ebits <= 16)
    ensures var r := GetDeterminant(s);
            Unframe(s, ebits, lb, u) ==
              if r.NoLength? || |s| < r.used + u * r.value then Starved
              else
                var k, w := r.used, u * r.value;
                if r.value < 16384 then Payload(s[k..k + w], k + w, [r.value])
                else
                  var more := Unframe(s[k + w..], ebits, lb, u);
                  if more.Starved? then Starved
                  else Payload(s[k..k + w] + more.bits, k + w + more.used, [r.value] + more.lengths)
  {
    hide GetDeterminant, Unframe, Scale;
    var r := GetDeterminant(s);
    UnframeOnce(s, ebits, lb, u);
    if r.Length? {
      ScaleProduct(r.value, u);
      Windows(s, r.used, u * r.value);
    }
  }

  lemma ScaleProduct(n: nat, u: nat)
    requires Unit(u)
    ensures Scale(n, u) == u * n
  {
  }

  lemma Windows<T>(s: seq<T>, i: nat, w: nat)
    ensures i + w <= |s| ==> s[i..][..w] == s[i..i + w]
  {
  }

  lemma UnframeOnce(s: seq<bool>, ebits: int, lb: nat, u: nat)
    requires Unit(u)
    ensures var r := GetLength(s, ebits, lb);
            Unframe(s, ebits, lb, u) ==
              if r.NoLength? || Scale(r.value, u) > |s| - r.used then Starved
              else
                var k, w := r.used, Scale(r.value, u);
                if !r.repeat then Payload(s[k..][..w], k + w, [r.value])
                else Prepend(s[k..][..w], k + w, [r.value], Unframe(s[k + w..], ebits, lb, u))
  {
    hide GetLength, Prepend, Scale;
  }

  /** With a count field: the number above lb, then that many units. */
  lemma UnframeCounted(s: seq<bool>, ebits: nat, lb: nat, u: nat)
    requires Unit(u) && ebits <= 16
    ensures |s| < ebits ==> Unframe(s, ebits, lb, u) == Starved
    ensures |s| >= ebits ==>
              var n := BitsNat(s[..ebits]) + lb;
              Unframe(s, ebits, lb, u) ==
                if |s| < ebits + u * n then Starved else Payload(s[ebits..ebits + u * n], ebits + u * n, [n])
  {
    hide BitsNat, Unframe, Scale;
    UnframeOnce(s, ebits, lb, u);
    if |s| >= ebits {
      var n := BitsNat(s[..ebits]) + lb;
      ScaleProduct(n, u);
      Windows(s, ebits, u * n);
    }
  }

  /** A payload read is the same whatever follows. */
  lemma {:induction false} UnframeExtends(s: seq<bool>, rest: seq<bool>, ebits: int, lb: nat, u: nat)
    requires Unit(u) && Unframe(s, ebits, lb, u).Payload?
    ensures Unframe(s + rest, ebits, lb, u) == Unframe(s, ebits, lb, u)
    decreases |s|
  {
    hide GetLength, Prepend;
    LengthExtends(s, rest, ebits, lb);
    var r := GetLength(s, ebits, lb);
    var w := Scale(r.value, u);
    assert (s + rest)[r.used..][..w] == s[r.used..][..w];
    if r.repeat {
      assert (s + rest)[r.used + w..] == s[r.used + w..] + rest;
      StarvedFirst(s[r.used..][..w], r.used + w, [r.value]);
      UnframeExtends(s[r.used + w..], rest, ebits, lb, u);
    }
  }

  lemma StarvedFirst(bits: seq<bool>, used: nat, lengths: seq<nat>)
    ensures Prepend(bits, used, lengths, Starved) == Starved
  {
  }

  lemma LengthExtends(s: seq<bool>, rest: seq<bool>, ebits: int, lb: nat)
    requires GetLength(s, ebits, lb).Length?
    ensures GetLength(s + rest, ebits, lb) == GetLength(s, ebits, lb)
  {
    hide BitsNat;
    var t := s + rest;
    if 0 <= ebits <= 16 {
      assert t[..ebits] == s[..ebits];
    } else {
      assert t[..8] == s[..8];
      if |s| >= 16 { assert t[8..16] == s[8..16]; }
    }
  }

  /** Every strict prefix of a frame starves the decoder. */
  lemma FramePrefixStarves(p: seq<bool>, n: nat, ebits: int, lb: nat, u: nat, cut: nat)
    requires Unit(u) && ebits < 0 && |p| == Scale(n, u) && cut < |Frame(p, n, u)|
    ensures Unframe(Frame(p, n, u)[..cut], ebits, lb, u) == Starved
  {
    hide Frame, Unframe;
    var f := Frame(p, n, u);
    FrameInverse(p, n, ebits, lb, u, []);
    assert f + [] == f && f[..cut] + f[cut..] == f;
    if Unframe(f[..cut], ebits, lb, u).Payload? {
      UnframeExtends(f[..cut], f[cut..], ebits, lb, u);
    }
  }
}
