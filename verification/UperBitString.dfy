/** BIT_STRING_uper.c: the unaligned PER codec (section 16 of ITU-T X.691). */
module UperBitString {
  import opened Bits
  import opened BitData
  import opened BitStr
  import opened PerFraming
  import opened PerLoops

  /** asn_per_constraint_t for a size. */
  datatype SizeConstraint = SizeConstraint(extensible: bool, effectiveBits: int, lowerBound: nat, upperBound: nat)

  /** asn_DEF_BIT_STRING_constraint_size; its bounds of -1 and 0 are never looked at. */
  const UNCONSTRAINED := SizeConstraint(false, -1, 0, 0)

  /** What the generated tables guarantee: the count field holds every size of the root. */
  predicate Consistent(c: SizeConstraint) {
    c.effectiveBits >= 0 ==>
      && c.effectiveBits <= 16
      && c.lowerBound <= c.upperBound
      && c.upperBound - c.lowerBound < Pow2(c.effectiveBits)
  }

  /** A constraint is consistent exactly when its count field reads back the largest count of the root. */
  lemma ConsistentExactly(c: SizeConstraint)
    ensures Consistent(c) <==>
              c.effectiveBits < 0
              || (&& c.effectiveBits <= 16 && c.lowerBound <= c.upperBound
                  && BitsNat(NatBits(c.upperBound - c.lowerBound, c.effectiveBits)) == c.upperBound - c.lowerBound)
  {
    hide NatBits, BitsNat, Pow2;
    if c.effectiveBits >= 0 && c.lowerBound <= c.upperBound {
      var n, k := c.upperBound - c.lowerBound, c.effectiveBits;
      if n < Pow2(k) {
        NatBitsValue(n, k);
      }
    }
  }

  /** The bits written for a value whose bits are t up to trailing zeros. */
  function UperBits(c: SizeConstraint, t: seq<bool>): seq<bool> {
    var n := |t|;
    var inext := c.effectiveBits >= 0 && n > c.upperBound;
    var extension := if c.extensible then [inext] else [];
    if c.effectiveBits >= 0 && !inext then
      extension + RootBits(c, t)
    else
      extension + Frame(t, n, 1)
  }

  /** Inside the root: a count above the lower bound, the bits, and zeros up to the lower bound. */
  function RootBits(c: SizeConstraint, t: seq<bool>): seq<bool>
    requires c.effectiveBits >= 0
  {
    var n := |t|;
    var trailer := if n < c.lowerBound then c.lowerBound - n else 0;
    NatBits(n + trailer - c.lowerBound, c.effectiveBits) + t + Zeros(trailer)
  }

  // ----- encoder -----

  lemma UsedFirstBits(c: BitString)
    requires HeaderOk(c)
    ensures UsedBits(c) == FirstBits(c.data, 8 * |c.data| - c.unused)
  {
  }

  lemma ZeroOctetBits(n: nat, k: nat)
    requires n <= 8 * k
    ensures FirstBits(seq(k, _ => 0), n) == Zeros(n)
  {
    hide BytesBits;
    ZeroOctets(seq(k, _ => 0), 0);
  }

  /** A value with zero padding has no 1 beyond its used bits. */
  lemma ProperLength(v: BitString)
    requires HeaderOk(v) && PaddingZero(v)
    ensures |Trim(BytesBits(v.data))| <= |UsedBits(v)|
  {
    hide BytesBits, Trim;
  }

  /** The trailer loop: n zero bits, at most 128 at a time. */
  method PutZeros(po: BitOut, n: nat)
    requires po.Valid()
    modifies po, po.tmpspace
    ensures po.Valid() && po.Contents() == old(po.Contents()) + Zeros(n)
  {
    hide FirstBits;
    var zeros: seq<byte> := seq(16, _ => 0);
    var left := n;
    ghost var was := po.Contents();
    assert was + Zeros(0) == was;
    while left > 0
      invariant po.Valid() && 0 <= left <= n && po.Contents() == was + Zeros(n - left)
    {
      var m := if left > 128 then 128 else left;
      ZeroOctetBits(m, 16);
      Assoc(was, Zeros(n - left), Zeros(m));
      assert Zeros(n - left) + Zeros(m) == Zeros(n - left + m);
      var rc := po.PutManyBits(zeros, m);
      left := left - m;
    }
  }

  /** Inside the root: count, bits, zero trailer. */
  method PutRoot(po: BitOut, c: SizeConstraint, d: seq<byte>, n: nat)
    requires po.Valid() && n <= 8 * |d| && c.effectiveBits >= 0 && Consistent(c) && n <= c.upperBound
    modifies po, po.tmpspace
    ensures po.Valid() && po.Contents() == old(po.Contents()) + RootBits(c, FirstBits(d, n))
  {
    hide FirstBits, NatBits, Zeros;
    var addTrailer := n < c.lowerBound;
    var rc := po.PutFewBits(if addTrailer then 0 else n - c.lowerBound, c.effectiveBits);
    rc := po.PutManyBits(d, n);
    var trailing := if addTrailer then c.lowerBound - n else 0;
    PutZeros(po, trailing);
    ghost var count := NatBits(n + trailing - c.lowerBound, c.effectiveBits);
    RoundAssoc(old(po.Contents()), count, FirstBits(d, n), Zeros(trailing));
  }

  /** BIT_STRING_encode_uper. */
  method EncodeUper(st: BitString, pc: Option<SizeConstraint>, po: BitOut) returns (ok: bool)
    requires po.Valid() && (pc.Some? ==> Consistent(pc.value))
    modifies po, po.tmpspace
    ensures po.Valid()
    ensures ok <==> && (st.present || st.data == [])
                    && 0 <= st.unused <= 7 && (st.data == [] ==> st.unused == 0)
                    && (pc.None? || pc.value.effectiveBits < 0 || pc.value.extensible
                        || |Trim(BytesBits(st.data))| <= pc.value.upperBound)
    ensures (&& WellFormed(st)
             && (pc.None? || pc.value.effectiveBits < 0 || pc.value.extensible
                 || |UsedBits(st)| <= pc.value.upperBound)) ==> ok
    ensures po.Contents() == old(po.Contents())
                             + if ok then UperBits(pc.GetOr(UNCONSTRAINED), Trim(BytesBits(st.data))) else []
  {
    hide BytesBits, Trim, Frame, RootBits, FirstBits, PaddingZero;
    if HeaderOk(st) && PaddingZero(st) {
      ProperLength(st);
    }
    ghost var was := po.Contents();
    assert was + [] == was;
    if !st.present && |st.data| > 0 {
      return false;
    }
    if (|st.data| == 0 && st.unused != 0) || !(0 <= st.unused <= 7) {
      return false;
    }
    var c := pc.GetOr(UNCONSTRAINED);
    var ctExtensible := c.extensible;
    var compact := Compactify(st);
    CompactedBits(st.data);
    UsedFirstBits(compact);
    var n := 8 * |compact.data| - compact.unused;
    ghost var t := Trim(BytesBits(st.data));
    assert FirstBits(compact.data, n) == t;
    var inext := false;
    if c.effectiveBits >= 0 && n > c.upperBound {
      if ctExtensible {
        inext := true;
      } else {
        return false;
      }
    }
    ghost var extension := if ctExtensible then [inext] else [];
    if ctExtensible {
      var rc := po.PutFewBits(if inext then 1 else 0, 1);
      assert NatBits(if inext then 1 else 0, 1) == [inext];
    }
    assert po.Contents() == was + extension;
    if c.effectiveBits >= 0 && !inext {
      PutRoot(po, c, compact.data, n);
      Assoc(was, extension, RootBits(c, t));
    } else {
      PutFrame(po, compact.data, n, 1, false);
      assert (was + extension) + Zeros(0) == was + extension;
      Assoc(was, extension, Frame(t, n, 1));
    }
    ok := true;
  }

  // ----- decoder -----

  /** What the decoder reads: the bits of the value, how many were used, whether the size was fixed. */
  datatype Decoded = Value(bits: seq<bool>, used: nat, fixed: bool) | Short

  function DecodeBits(pc: SizeConstraint, s: seq<bool>): (r: Decoded)
    requires Consistent(pc)
    ensures r.Value? ==> r.used <= |s|
  {
    if pc.extensible then
      if |s| < 1 then Short
      else
        match DecodeSized(if s[0] then UNCONSTRAINED else pc, s[1..])
        case Short => Short
        case Value(bits, used, fixed) => Value(bits, 1 + used, fixed)
    else DecodeSized(pc, s)
  }

  /** After the extension bit: a fixed size, or the fragment loop. */
  function DecodeSized(c: SizeConstraint, s: seq<bool>): (r: Decoded)
    requires Consistent(c)
    ensures r.Value? ==> r.used <= |s|
  {
    if c.effectiveBits == 0 then
      if |s| < c.upperBound then Short else Value(s[..c.upperBound], c.upperBound, true)
    else
      match Unframe(s, c.effectiveBits, c.lowerBound, 1)
      case Starved => Short
      case Payload(bits, used, _) => Value(bits, used, false)
  }

  /** bits_unused after decoding into a structure that held before. */
  function DecodedUnused(r: Decoded, before: int): int
    requires r.Value?
  {
    if r.fixed then Padding(|r.bits|) else UnusedAfter(|r.bits|, before)
  }

  /** Fixed size: exactly upperBound bits. */
  method GetFixed(st: Cell, pd: BitIn, size: nat) returns (rc: Rc)
    requires st.Valid() && pd.Valid()
    modifies st, pd
    ensures st.Valid() && pd.Valid()
    ensures rc == (if size <= |old(pd.Ahead())| then Ok else WMore)
    ensures rc == Ok ==>
              && pd.Ahead() == old(pd.Ahead())[size..]
              && st.View() == BitString(true, Pack(old(pd.Ahead())[..size]), Padding(size))
              && st.block[st.size] == 0
  {
    hide Pack, BytesBits;
    st.size := 0;
    st.Reserve((size + 7) / 8);
    var ret, bytes := pd.GetManyBits(size);
    if ret < 0 {
      return WMore;
    }
    assert st.View().data + bytes == bytes;
    st.Append(bytes);
    st.Terminate();
    st.unused := (8 - size % 8) % 8;
    rc := Ok;
  }

  /** After the extension bit: a fixed size, or the fragment loop. */
  method DecodeRest(st: Cell, c: SizeConstraint, pd: BitIn) returns (rc: Rc, consumed: nat)
    requires st.Valid() && pd.Valid() && Consistent(c)
    modifies st, pd
    ensures st.Valid() && pd.Valid()
    ensures var r := DecodeSized(c, old(pd.Ahead()));
            if r.Short? then rc == WMore
            else
              && rc == Ok && pd.Ahead() == old(pd.Ahead())[r.used..]
              && st.View() == BitString(true, Pack(r.bits), DecodedUnused(r, old(st.unused)))
              && st.block[st.size] == 0
              && consumed == if r.fixed then |r.bits| else 0
  {
    hide Pack, BytesBits, Unframe, UnusedAfter, Padding;
    if c.effectiveBits == 0 {
      rc := GetFixed(st, pd, c.upperBound);
      consumed := if rc == Ok then c.upperBound else 0;
      return;
    }
    Unaligned(pd.Ahead(), c.effectiveBits, c.lowerBound);
    if c.effectiveBits > 0 {
      // a block of the largest size is allocated before the length is known
      st.size := 0;
      st.Reserve((c.upperBound + 7) / 8);
    }
    var payload;
    rc, payload := GetFrame(st, pd, c.effectiveBits, c.lowerBound, 1, false);
    consumed := 0;
  }

  /** BIT_STRING_decode_uper into the structure st, fresh or not. */
  method DecodeUper(st: Cell, pc: Option<SizeConstraint>, pd: BitIn) returns (rc: Rc, consumed: nat)
    requires st.Valid() && pd.Valid() && (pc.Some? ==> Consistent(pc.value))
    modifies st, pd
    ensures st.Valid() && pd.Valid()
    ensures var r := DecodeBits(pc.GetOr(UNCONSTRAINED), old(pd.Ahead()));
            if r.Short? then rc == WMore
            else
              && rc == Ok && pd.Ahead() == old(pd.Ahead())[r.used..]
              && st.View() == BitString(true, Pack(r.bits), DecodedUnused(r, old(st.unused)))
              && st.block[st.size] == 0
              && consumed == if r.fixed then |r.bits| else 0
  {
    hide Pack, BytesBits, DecodeSized, DecodedUnused;
    var c := pc.GetOr(UNCONSTRAINED);
    ghost var s, x := pd.Ahead(), 0;
    assert s[0..] == s;
    if c.extensible {
      var inext := pd.GetFewBits(1);
      if inext < 0 {
        return WMore, 0;
      }
      x := 1;
      OneBit(s);
      if inext > 0 {
        c := UNCONSTRAINED;
      }
    }
    ghost var r := DecodeSized(c, pd.Ahead());
    rc, consumed := DecodeRest(st, c, pd);
    if r.Value? {
      Suffix(s, x, r.used);
      SameUnused(r, x + r.used);
    }
  }

  lemma SameUnused(r: Decoded, used: nat)
    requires r.Value?
    ensures forall before: int :: DecodedUnused(r, before) == DecodedUnused(Value(r.bits, used, r.fixed), before)
  {
  }

  lemma OneBit(s: seq<bool>)
    requires |s| >= 1
    ensures BitsNat(s[..1]) == if s[0] then 1 else 0
  {
    assert NatOfFirst(s[..1], 0) == 0;
  }

  lemma Unaligned(s: seq<bool>, ebits: int, lb: nat)
    ensures forall p: nat :: Gap(false, p) == 0 && ReadFrame(s, p, ebits, lb, 1, false) == Unframe(s, ebits, lb, 1)
  {
    assert s[0..] == s;
  }

  // ----- theorems -----

  /** The bits a decoder gets back: those of the value, zero-filled up to the lower bound in the root. */
  function Restored(c: SizeConstraint, t: seq<bool>): seq<bool> {
    if 0 <= c.effectiveBits && |t| <= c.upperBound && |t| < c.lowerBound then t + Zeros(c.lowerBound - |t|) else t
  }

  lemma RootInverse(c: SizeConstraint, t: seq<bool>, rest: seq<bool>)
    requires Consistent(c) && c.effectiveBits >= 0 && |t| <= c.upperBound
    ensures DecodeSized(c, RootBits(c, t) + rest)
         == Value(Restored(c, t), |RootBits(c, t)|, c.effectiveBits == 0)
  {
    hide NatBits, BitsNat, Pow2, Zeros, Unframe;
    var n := |t|;
    var trailer := if n < c.lowerBound then c.lowerBound - n else 0;
    var count := NatBits(n + trailer - c.lowerBound, c.effectiveBits);
    var body := t + Zeros(trailer);
    NothingThere();
    assert body == Restored(c, t);
    Assoc(count, body, rest);
    assert RootBits(c, t) == count + body by { Assoc(count, t, Zeros(trailer)); }
    if c.effectiveBits == 0 {
      assert count == [] && [] + body == body;
      assert (body + rest)[..|body|] == body;
    } else {
      CountedBody(c, count, body, rest);
    }
  }

  lemma CountedBody(c: SizeConstraint, count: seq<bool>, body: seq<bool>, rest: seq<bool>)
    requires Consistent(c) && c.effectiveBits > 0 && c.lowerBound <= |body| <= c.upperBound
    requires count == NatBits(|body| - c.lowerBound, c.effectiveBits)
    ensures Unframe(count + (body + rest), c.effectiveBits, c.lowerBound, 1) == Payload(body, |count| + |body|, [|body|])
  {
    hide NatBits, BitsNat, Pow2;
    var s := count + (body + rest);
    NatBitsValue(|body| - c.lowerBound, c.effectiveBits);
    assert s[..c.effectiveBits] == count;
    assert s[c.effectiveBits..] == body + rest && (body + rest)[..|body|] == body;
  }

  lemma FrameDecoded(c: SizeConstraint, t: seq<bool>, rest: seq<bool>)
    requires Consistent(c) && c.effectiveBits < 0
    ensures DecodeSized(c, Frame(t, |t|, 1) + rest) == Value(t, |Frame(t, |t|, 1)|, false)
  {
    hide Frame, Unframe;
    FrameInverse(t, |t|, c.effectiveBits, c.lowerBound, 1, rest);
  }

  /** Decoding what was written gives the bits back and uses exactly the bits written, whatever follows. */
  lemma DecodeInverse(c: SizeConstraint, t: seq<bool>, rest: seq<bool>)
    requires Consistent(c) && (c.effectiveBits >= 0 && |t| > c.upperBound ==> c.extensible)
    ensures var r := DecodeBits(c, UperBits(c, t) + rest);
            && r.Value? && r.bits == Restored(c, t) && r.used == |UperBits(c, t)|
            && (r.fixed ==> c.effectiveBits == 0)
  {
    hide Frame, RootBits, DecodeSized, Unframe;
    var inext := c.effectiveBits >= 0 && |t| > c.upperBound;
    var body := if c.effectiveBits >= 0 && !inext then RootBits(c, t) else Frame(t, |t|, 1);
    if c.effectiveBits >= 0 && !inext {
      RootInverse(c, t, rest);
    } else {
      FrameDecoded(if inext then UNCONSTRAINED else c, t, rest);
    }
    if c.extensible {
      var s := UperBits(c, t) + rest;
      assert s == [inext] + (body + rest);
      assert s[0] == inext && s[1..] == body + rest;
    } else {
      assert [] + body == body;
    }
  }

  lemma RestoredTrim(c: SizeConstraint, t: seq<bool>)
    requires Trim(t) == t
    ensures Trim(Restored(c, t)) == t
  {
    TrimZeros(t, if |t| < c.lowerBound then c.lowerBound - |t| else 0);
  }

  lemma TrimTwice(bits: seq<bool>)
    ensures Trim(Trim(bits)) == Trim(bits)
  {
    TrimUnique(Trim(bits), Trim(bits));
  }

  /**
   * UPER round trip: whatever the constraint, a value the encoder accepts decodes into a
   * fresh structure as a well-formed value that compares equal to it, holds at
   * least lowerBound bits, and leaves exactly the bits that follow.
   */
  lemma UperRoundTrip(c: SizeConstraint, v: BitString, rest: seq<bool>)
    requires Consistent(c) && (v.present || v.data == [])
    requires 0 <= v.unused <= 7 && (v.data == [] ==> v.unused == 0)
    requires c.effectiveBits < 0 || c.extensible || |Trim(BytesBits(v.data))| <= c.upperBound
    ensures var e := UperBits(c, Trim(BytesBits(v.data)));
            var r := DecodeBits(c, e + rest);
            && r.Value? && r.used == |e|
            && var w := BitString(true, Pack(r.bits), DecodedUnused(r, 0));
               && WellFormed(w) && UsedBits(w) == r.bits && Compare(w, v) == 0
               && (c.effectiveBits >= 0 && |Trim(BytesBits(v.data))| <= c.upperBound
                   ==> c.lowerBound <= |UsedBits(w)| <= c.upperBound)
  {
    hide BytesBits, Trim, Pack, UperBits, DecodeBits, Restored;
    var t := Trim(BytesBits(v.data));
    DecodeInverse(c, t, rest);
    var r := DecodeBits(c, UperBits(c, t) + rest);
    var w := BitString(true, Pack(r.bits), DecodedUnused(r, 0));
    RestoredLength(c, t);
    PackedValue(r.bits);
    TrimTwice(BytesBits(v.data));
    RestoredTrim(c, t);
    TrimZeros(r.bits, Padding(|r.bits|));
    CompareZero(w, v);
  }

  lemma RestoredLength(c: SizeConstraint, t: seq<bool>)
    requires Consistent(c)
    ensures c.effectiveBits >= 0 && |t| <= c.upperBound ==> c.lowerBound <= |Restored(c, t)| <= c.upperBound
  {
  }

  /** Packed bits with the matching count of unused bits are a proper value. */
  lemma PackedValue(bits: seq<bool>)
    ensures var w := BitString(true, Pack(bits), Padding(|bits|));
            && WellFormed(w) && UsedBits(w) == bits && BytesBits(w.data) == bits + Zeros(Padding(|bits|))
    ensures UnusedAfter(|bits|, 0) == Padding(|bits|)
  {
    hide BytesBits, Pack;
    BytesBitsPack(bits);
  }

  /**
   * UPER canonicity: under one constraint two accepted values are written as the
   * same bits exactly when BIT_STRING_compare calls them equal.
   */
  lemma UperCanonical(c: SizeConstraint, a: BitString, b: BitString)
    requires Consistent(c)
    requires (a.present || a.data == []) && 0 <= a.unused <= 7 && (a.data == [] ==> a.unused == 0)
    requires (b.present || b.data == []) && 0 <= b.unused <= 7 && (b.data == [] ==> b.unused == 0)
    requires c.effectiveBits < 0 || c.extensible
             || (|Trim(BytesBits(a.data))| <= c.upperBound && |Trim(BytesBits(b.data))| <= c.upperBound)
    ensures UperBits(c, Trim(BytesBits(a.data))) == UperBits(c, Trim(BytesBits(b.data))) <==> Compare(a, b) == 0
  {
    hide BytesBits, Trim, UperBits, DecodeBits, Restored, Compare;
    var x, y := Trim(BytesBits(a.data)), Trim(BytesBits(b.data));
    DecodeInverse(c, x, []);
    DecodeInverse(c, y, []);
    TrimTwice(BytesBits(a.data));
    TrimTwice(BytesBits(b.data));
    RestoredTrim(c, x);
    RestoredTrim(c, y);
    CompareZero(a, b);
  }

  /** No encoding is the beginning of another: two encodings side by side split one way. */
  lemma UperPrefixFree(c: SizeConstraint, x: seq<bool>, y: seq<bool>, restX: seq<bool>, restY: seq<bool>)
    requires Consistent(c) && Trim(x) == x && Trim(y) == y
    requires c.effectiveBits >= 0 && |x| > c.upperBound ==> c.extensible
    requires c.effectiveBits >= 0 && |y| > c.upperBound ==> c.extensible
    requires UperBits(c, x) + restX == UperBits(c, y) + restY
    ensures x == y && restX == restY
  {
    hide Trim, UperBits, DecodeBits, Restored;
    var s := UperBits(c, x) + restX;
    DecodeInverse(c, x, restX);
    DecodeInverse(c, y, restY);
    RestoredTrim(c, x);
    RestoredTrim(c, y);
    assert restX == s[|UperBits(c, x)|..] && restY == s[|UperBits(c, y)|..];
  }

  /**
   * Decoding into a structure used before: what DecodeUper leaves is a proper value
   * with the bits read exactly when the size was fixed, the last octet is partial,
   * or bits_unused was 0. Otherwise the value has a bad header, or it lacks bits.
   */
  lemma ReusedStructure(r: Decoded, before: int)
    requires r.Value?
    ensures var w := BitString(true, Pack(r.bits), DecodedUnused(r, before));
            (WellFormed(w) && UsedBits(w) == r.bits) <==> (r.fixed || |r.bits| % 8 != 0 || before == 0)
    ensures !r.fixed && r.bits == [] && before != 0 ==>
              !HeaderOk(BitString(true, Pack(r.bits), DecodedUnused(r, before)))
  {
    hide Pack, BytesBits;
    PackedValue(r.bits);
  }

  /** Two octets decoded over a structure with three unused bits come out as thirteen bits. */
  lemma ReusedStructureLosesBits(bits: seq<bool>)
    requires |bits| == 16
    ensures var w := BitString(true, Pack(bits), DecodedUnused(Value(bits, 24, false), 3));
            HeaderOk(w) && UsedBits(w) == bits[..13]
  {
    hide Pack, BytesBits;
    PackedValue(bits);
  }

  // ----- in literal bits -----

  /**
   * The layout of an encoding: the extension bit, and then, inside the root, the
   * count of bits above the lower bound, the bits and as many zeros as they lack;
   * without a root, or beyond it, a frame of the bits.
   */
  lemma UperLayout(c: SizeConstraint, t: seq<bool>)
    requires Consistent(c)
    ensures var e, k, n := UperBits(c, t), (if c.extensible then 1 else 0), |t|;
            && |e| >= k
            && (c.extensible ==> (e[0] <==> c.effectiveBits >= 0 && n > c.upperBound))
            && (c.effectiveBits < 0 || n > c.upperBound ==> e[k..] == Frame(t, n, 1))
            && (c.effectiveBits >= 0 && n <= c.upperBound ==>
                  var size, b := if n < c.lowerBound then c.lowerBound else n, k + c.effectiveBits;
                  && |e| == b + size
                  && BitsNat(e[k..b]) == size - c.lowerBound
                  && e[b..b + n] == t
                  && forall i :: b + n <= i < |e| ==> !e[i])
  {
    hide Frame, NatBits, BitsNat, Pow2, RootBits;
    var n := |t|;
    var extension := if c.extensible then [c.effectiveBits >= 0 && n > c.upperBound] else [];
    if c.effectiveBits >= 0 && n <= c.upperBound {
      RootLayout(c, t);
      Behind(extension, RootBits(c, t), c.effectiveBits, n);
    } else {
      Behind(extension, Frame(t, n, 1), 0, 0);
    }
  }

  lemma RootLayout(c: SizeConstraint, t: seq<bool>)
    requires Consistent(c) && c.effectiveBits >= 0 && |t| <= c.upperBound
    ensures var r, size, eb := RootBits(c, t), (if |t| < c.lowerBound then c.lowerBound else |t|), c.effectiveBits;
            && |r| == eb + size && BitsNat(r[..eb]) == size - c.lowerBound
            && r[eb..eb + |t|] == t && forall i :: eb + |t| <= i < |r| ==> !r[i]
  {
    hide NatBits, BitsNat, Pow2;
    var trailer := if |t| < c.lowerBound then c.lowerBound - |t| else 0;
    NatBitsValue(|t| + trailer - c.lowerBound, c.effectiveBits);
    Three(NatBits(|t| + trailer - c.lowerBound, c.effectiveBits), t, Zeros(trailer));
  }

  lemma Behind(x: seq<bool>, r: seq<bool>, i: nat, n: nat)
    requires i + n <= |r|
    ensures var e, k := x + r, |x|;
            && e[k..] == r && e[k..k + i] == r[..i] && e[k + i..k + i + n] == r[i..i + n]
            && forall j :: k <= j < |e| ==> e[j] == r[j - k]
  {
  }

  /** The gNB identity 0xB5 0xC0 0x00 0x00 under SIZE (22..32): count 0, its ten bits and twelve zeros. */
  lemma ShortGnbId()
    ensures var c, t := SizeConstraint(false, 4, 22, 32), Trim(BytesBits([0xB5, 0xC0, 0, 0]));
            && t == [true, false, true, true, false, true, false, true, true, true]
            && UperBits(c, t) == Zeros(4) + t + Zeros(12)
  {
    hide ByteBits, NatBits, Trim, BytesBits;
    var bits := BytesBits([0xB5, 0xC0, 0, 0]);
    FourOctets();
    var t := [true, false, true, true, false, true, false, true, true, true];
    assert bits == t + Zeros(22);
    TrimUnique(bits, t);
    NatBitsZero(4);
    Assoc3([], Zeros(4), t, Zeros(12));
  }

  lemma FourOctets()
    ensures BytesBits([0xB5, 0xC0, 0, 0])
         == [true, false, true, true, false, true, false, true] + [true, true, false, false, false, false, false, false]
            + Zeros(8) + Zeros(8)
  {
    hide *;
    OctetsOf(0xB5, 0xC0, 0, 0);
    OctetBits(0xB5);
    OctetBits(0xC0);
    ZeroOctet();
  }

  lemma OctetsOf(w: byte, x: byte, y: byte, z: byte)
    ensures BytesBits([w, x, y, z]) == ByteBits(w) + ByteBits(x) + ByteBits(y) + ByteBits(z)
  {
    hide BytesBits;
    assert [w, x, y, z] == [w] + [x] + [y] + [z];
    BytesBitsConcat([w] + [x] + [y], [z]);
    BytesBitsConcat([w] + [x], [y]);
    BytesBitsConcat([w], [x]);
    SingleByte(w);
    SingleByte(x);
    SingleByte(y);
    SingleByte(z);
  }

  lemma Assoc3(x: seq<bool>, a: seq<bool>, b: seq<bool>, c: seq<bool>)
    requires x == []
    ensures x + (a + b + c) == a + b + c
  {
  }

  /** The extension bit comes first, and a set one takes the constraint away. */
  lemma DecodeAfterBit(c: SizeConstraint, s: seq<bool>)
    requires Consistent(c)
    ensures c.extensible && s == [] ==> DecodeBits(c, s) == Short
    ensures var k := if c.extensible then 1 else 0;
            |s| >= k ==>
              var r := DecodeSized(if c.extensible && s[0] then UNCONSTRAINED else c, s[k..]);
              DecodeBits(c, s) == if r.Short? then Short else Value(r.bits, k + r.used, r.fixed)
  {
    hide DecodeSized;
    assert s[0..] == s;
  }

  /** Without a size, or behind a set extension bit, a frame is read. */
  lemma DecodeUnsized(c: SizeConstraint, s: seq<bool>)
    requires Consistent(c)
    ensures var k := if c.extensible then 1 else 0;
            |s| >= k && (c.effectiveBits < 0 || (c.extensible && s[0])) ==>
              var r := Unframe(s[k..], -1, 0, 1);
              DecodeBits(c, s) == if r.Starved? then Short else Value(r.bits, k + r.used, false)
  {
    hide Unframe, DecodeBits;
    DecodeAfterBit(c, s);
    var k := if c.extensible then 1 else 0;
    if |s| >= k {
      NegativeBits(s[k..], c.effectiveBits, c.lowerBound);
    }
  }

  /** Without effective bits exactly upperBound bits are read. */
  lemma DecodeFixed(c: SizeConstraint, s: seq<bool>)
    requires Consistent(c)
    ensures var k := if c.extensible then 1 else 0;
            |s| >= k && c.effectiveBits == 0 && !(c.extensible && s[0]) ==>
              DecodeBits(c, s) == if |s| < k + c.upperBound then Short
                                  else Value(s[k..k + c.upperBound], k + c.upperBound, true)
  {
    hide Unframe, DecodeBits;
    DecodeAfterBit(c, s);
    Windows(s, if c.extensible then 1 else 0, c.upperBound);
  }

  /** With effective bits, a count above the lower bound and that many bits are read. */
  lemma DecodeCounted(c: SizeConstraint, s: seq<bool>)
    requires Consistent(c)
    ensures var k := if c.extensible then 1 else 0;
            |s| >= k && c.effectiveBits > 0 && !(c.extensible && s[0]) ==>
              var b := k + c.effectiveBits;
              var size := if |s| < b then 0 else BitsNat(s[k..b]) + c.lowerBound;
              DecodeBits(c, s) == if |s| < b + size then Short else Value(s[b..b + size], b + size, false)
  {
    hide Unframe, BitsNat, Pow2, DecodeBits;
    var k, eb := if c.extensible then 1 else 0, c.effectiveBits;
    if |s| >= k && eb > 0 && !(c.extensible && s[0]) {
      DecodeAfterBit(c, s);
      UnframeCounted(s[k..], eb, c.lowerBound, 1);
      Windows(s, k, eb);
      var size := if |s| < k + eb then 0 else BitsNat(s[k..k + eb]) + c.lowerBound;
      Window(s, k, eb, size);
    }
  }

  lemma Window(s: seq<bool>, k: nat, i: nat, n: nat)
    requires k <= |s|
    ensures k + i + n <= |s| ==> s[k..][i..i + n] == s[k + i..k + i + n]
  {
  }

  /** Without effective bits neither they nor the lower bound matter. */
  lemma {:induction false} NegativeBits(s: seq<bool>, ebits: int, lb: nat)
    ensures ebits < 0 ==> Unframe(s, ebits, lb, 1) == Unframe(s, -1, 0, 1)
    decreases |s|
  {
    hide GetDeterminant;
    if ebits < 0 {
      UnframeExactly(s, ebits, lb, 1);
      UnframeExactly(s, -1, 0, 1);
      var r := GetDeterminant(s);
      if r.Length? && r.used + r.value <= |s| {
        NegativeBits(s[r.used + r.value..], ebits, lb);
      }
    }
  }

  /** Every strict prefix of an encoding asks for more. */
  lemma UperPrefixStarves(c: SizeConstraint, t: seq<bool>, cut: nat)
    requires Consistent(c) && (c.effectiveBits >= 0 && |t| > c.upperBound ==> c.extensible)
    requires cut < |UperBits(c, t)|
    ensures DecodeBits(c, UperBits(c, t)[..cut]) == Short
  {
    hide UperBits, DecodeBits;
    var e := UperBits(c, t);
    DecodeInverse(c, t, []);
    assert e + [] == e && e[..cut] + e[cut..] == e;
    if DecodeBits(c, e[..cut]).Value? {
      DecodeExtends(c, e[..cut], e[cut..]);
    }
  }

  lemma DecodeExtends(c: SizeConstraint, s: seq<bool>, rest: seq<bool>)
    requires Consistent(c) && DecodeBits(c, s).Value?
    ensures DecodeBits(c, s + rest) == DecodeBits(c, s)
  {
    hide DecodeSized;
    if c.extensible {
      assert (s + rest)[0] == s[0] && (s + rest)[1..] == s[1..] + rest;
      SizedExtends(if s[0] then UNCONSTRAINED else c, s[1..], rest);
    } else {
      SizedExtends(c, s, rest);
    }
  }

  lemma SizedExtends(c: SizeConstraint, s: seq<bool>, rest: seq<bool>)
    requires Consistent(c) && DecodeSized(c, s).Value?
    ensures DecodeSized(c, s + rest) == DecodeSized(c, s)
  {
    hide Unframe;
    if c.effectiveBits == 0 {
      assert (s + rest)[..c.upperBound] == s[..c.upperBound];
    } else {
      UnframeExtends(s, rest, c.effectiveBits, c.lowerBound, 1);
    }
  }

  /** The bits read for an accepted value: its own, and zeros up to the lower bound inside the root. */
  lemma RestoredExactly(c: SizeConstraint, t: seq<bool>)
    ensures var r := Restored(c, t);
            && t <= r && (forall i :: |t| <= i < |r| ==> !r[i])
            && |r| == if c.effectiveBits >= 0 && |t| <= c.upperBound && |t| < c.lowerBound then c.lowerBound else |t|
  {
  }
}
