/** BIT_STRING_oer.c and oer_support.c: the octet encoding rules (ITU-T X.696). */
module OerBitString {
  import opened Bits
  import opened BitData
  import opened BitStr

  const SIZE_BYTES: nat := 8   // sizeof(size_t)

  // RSIZE_MAX is SIZE_MAX >> 1.
  const RSIZE_MAX: nat := 0x7FFF_FFFF_FFFF_FFFF

  // ----- length determinants (section 8.6 of ITU-T X.696) -----

  /** Octets a number needs. */
  function Width(n: nat): (k: nat)
    ensures k >= 1
  {
    if n < 256 then 1 else 1 + Width(n / 256)
  }

  /** The length octets written for n. */
  function LengthBytes(n: nat): (q: seq<byte>)
    requires n < Pow2(64)
    ensures q != []
  {
    WidthBound(n, SIZE_BYTES);
    if n <= 127 then [n] else [0x80 + Width(n)] + NatBytes(n, Width(n))
  }

  lemma {:induction false} WidthBound(n: nat, k: nat)
    requires n < Pow2(8 * k) && k >= 1
    ensures Width(n) <= k
  {
    if n >= 256 {
      Shift8(n);
      ShrBound(n, 8 * k, 8);
      if k == 1 { OctetPower(); }
      WidthBound(n / 256, k - 1);
    }
  }

  /** In k octets, all but the last Width(n) are zero and the first of those is not, unless n is 0. */
  lemma {:induction false} LeadingZeros(n: nat, k: nat)
    requires n < Pow2(8 * k) && k >= 1
    ensures Width(n) <= k && NatBytes(n, k)[k - Width(n)..] == NatBytes(n, Width(n))
    ensures forall i :: 0 <= i < k - Width(n) ==> NatBytes(n, k)[i] == 0
    ensures n > 0 ==> NatBytes(n, k)[k - Width(n)] != 0
  {
    hide NatBytes, Pow2, Shr, Shl, Low;
    WidthBound(n, k);
    NatBytesStep(n, k);
    NatBytesStep(n, Width(n));
    if n >= 256 {
      Shift8(n);
      ShrBound(n, 8 * k, 8);
      LeadingZeros(n / 256, k - 1);
      var w := Width(n / 256);
      assert NatBytes(n, k)[k - 1 - w..] == NatBytes(n / 256, k - 1)[k - 1 - w..] + [n % 256];
    } else if k > 1 {
      NatBytesZero(k - 1);
    }
  }

  lemma NatBytesStep(n: nat, k: nat)
    requires k >= 1
    ensures NatBytes(n, k) == NatBytes(n / 256, k - 1) + [n % 256]
    ensures NatBytes(n, 0) == []
  {
  }

  lemma {:induction false} NatBytesZero(k: nat)
    ensures forall i :: 0 <= i < k ==> NatBytes(0, k)[i] == 0
  {
    if k > 0 { NatBytesZero(k - 1); }
  }

  /** oer_serialize_length. */
  method SerializeLength(length: nat) returns (out: seq<byte>)
    requires length < Pow2(64)
    ensures out == LengthBytes(length)
  {
    hide NatBytes, Pow2, Width;
    if length <= 127 {
      return [length];
    }
    var octets := NatBytes(length, SIZE_BYTES);   // the number in memory, most significant first
    LeadingZeros(length, SIZE_BYTES);
    var p := 0;
    while p != SIZE_BYTES - 1 && octets[p] == 0
      invariant 0 <= p <= SIZE_BYTES - Width(length)
      decreases SIZE_BYTES - p
    {
      p := p + 1;
    }
    out := [0x80 + (SIZE_BYTES - p)] + octets[p..];
  }

  datatype Fetched = Got(length: nat, used: nat) | More | Bad

  /** What oer_fetch_length makes of the octets at hand. */
  function FetchedLength(s: seq<byte>): (r: Fetched)
    ensures r.Got? ==> 1 <= r.used <= |s| && r.length <= RSIZE_MAX
  {
    if |s| == 0 then More
    else if s[0] < 0x80 then Got(s[0], 1)
    else
      var k := s[0] - 0x80;
      if 1 + k > |s| then More
      else if BytesNat(s[1..1 + k]) > RSIZE_MAX then Bad
      else Got(BytesNat(s[1..1 + k]), 1 + k)
  }

  lemma {:induction false} SkippedZeros(q: seq<byte>, i: nat)
    requires i <= |q| && forall j :: 0 <= j < i ==> q[j] == 0
    ensures NatOfOctets(q, i) == 0
  {
    if i > 0 { SkippedZeros(q, i - 1); }
  }

  lemma {:induction false} NumberGrows(q: seq<byte>, i: nat, n: nat)
    requires i < n <= |q| && q[i] != 0
    ensures NatOfOctets(q, n) >= Pow2(8 * (n - 1 - i))
    decreases n
  {
    if n == i + 1 {
      NothingThere();
    } else {
      NumberGrows(q, i, n - 1);
      Pow2Shl(8 * (n - 2 - i), 8);
      ShlOctet(Pow2(8 * (n - 2 - i)));
    }
  }

  lemma TooManyOctets(q: seq<byte>, i: nat)
    requires i < |q| && q[i] != 0 && |q| - i > SIZE_BYTES
    ensures BytesNat(q) > RSIZE_MAX
  {
    hide Pow2, NatOfOctets;
    NumberGrows(q, i, |q|);
    PowMono(64, 8 * (|q| - 1 - i));
    Power64();
  }

  lemma {:induction false} PowMono(a: nat, b: nat)
    requires a <= b
    ensures Pow2(a) <= Pow2(b)
  {
    if a < b { PowMono(a, b - 1); }
  }

  lemma Power64()
    ensures Pow2(64) == 0x1_0000_0000_0000_0000
  {
    hide Shl, Pow2;
    OctetPower();
    Pow2Shl(8, 24);
    ShlOctets(Pow2(8));
    Pow2Shl(32, 24);
    ShlOctets(Pow2(32));
    Pow2Shl(56, 8);
    ShlOctets(Pow2(56));
  }

  /** oer_fetch_length. */
  method FetchLength(s: seq<byte>) returns (r: Fetched)
    ensures r == FetchedLength(s)
    ensures s == [] ==> r == More
    ensures s != [] && s[0] <= 127 ==> r == Got(s[0], 1)
    ensures s != [] && s[0] >= 128 ==>
              var k := s[0] - 127;
              r == if |s| < k then More
                   else if BytesNat(s[1..k]) > 0x7FFF_FFFF_FFFF_FFFF then Bad
                   else Got(BytesNat(s[1..k]), k)
  {
    hide Pow2;
    if |s| == 0 {
      return More;
    }
    if s[0] < 0x80 {
      return Got(s[0], 1);
    }
    var lenLen := s[0] - 0x80;
    if 1 + lenLen > |s| {
      return More;
    }
    var q, b := s[1..1 + lenLen], 0;
    while b < lenLen && q[b] == 0
      invariant 0 <= b <= lenLen && forall j :: 0 <= j < b ==> q[j] == 0
    {
      b := b + 1;
    }
    if lenLen - b > SIZE_BYTES {
      TooManyOctets(q, b);
      return Bad;
    }
    SkippedZeros(q, b);
    var len: nat := 0;
    while b < lenLen
      invariant 0 <= b <= lenLen && len == NatOfOctets(q, b)
    {
      len := len * 256 + q[b];
      b := b + 1;
    }
    r := if len > RSIZE_MAX then Bad else Got(len, lenLen + 1);
  }

  /** Fetching undoes serializing for every representable length; a longer one is an error. */
  lemma LengthInverse(n: nat, rest: seq<byte>)
    requires n < Pow2(64)
    ensures FetchedLength(LengthBytes(n) + rest)
         == if n <= RSIZE_MAX then Got(n, |LengthBytes(n)|) else Bad
  {
    hide NatBytes, Pow2, Width, NatOfOctets;
    if n > 127 {
      var k, s := Width(n), LengthBytes(n) + rest;
      WidthBound(n, SIZE_BYTES);
      assert s[1..1 + k] == NatBytes(n, k);
      NatBytesValue(n, k);
      WidthRoom(n);
    }
  }

  /** The length octets: one up to 127; above, 128 plus a count and that many octets of the number, the first not zero. */
  lemma LengthOctets(n: nat)
    requires n < Pow2(64)
    ensures n <= 127 ==> LengthBytes(n) == [n]
    ensures n >= 128 ==>
              var q := LengthBytes(n);
              |q| >= 2 && q[0] == 128 + (|q| - 1) && BytesNat(q[1..]) == n && q[1] != 0
  {
    hide NatBytes, Pow2, NatOfOctets;
    if n >= 128 {
      WidthBound(n, SIZE_BYTES);
      WidthRoom(n);
      NatBytesValue(n, Width(n));
      LeadingZeros(n, Width(n));
      assert LengthBytes(n)[1..] == NatBytes(n, Width(n));
    }
  }

  lemma {:induction false} WidthRoom(n: nat)
    ensures n < Pow2(8 * Width(n))
  {
    if n < 256 {
      OctetPower();
    } else {
      WidthRoom(n / 256);
      Pow2Shl(8 * Width(n / 256), 8);
      ShlOctet(Pow2(8 * Width(n / 256)));
    }
  }

  lemma NatBytesValue(n: nat, k: nat)
    ensures n < Pow2(8 * k) ==> BytesNat(NatBytes(n, k)) == n
  {
    if n < Pow2(8 * k) {
      NatBytesBits(n, k);
      BytesNatBits(NatBytes(n, k));
      NatBitsValue(n, 8 * k);
      NatBitsValue(BytesNat(NatBytes(n, k)), 8 * k);
    }
  }

  // ----- encoder -----

  /** b & (0xff << u) */
  function MaskLow(b: byte, u: nat): byte
    requires u <= 7
  {
    MaskLowBits(b, u);
    Shl(Shr(b, u), u)
  }

  lemma MaskLowBits(b: byte, u: nat)
    requires u <= 7
    ensures Shl(Shr(b, u), u) <= b
    ensures Shl(Shr(b, u), u) < 256 ==> ByteBits(Shl(Shr(b, u), u)) == ByteBits(b)[..8 - u] + Zeros(u)
  {
    hide *;
    ShiftSplit(b, u);
    NatBitsConcat(Shr(b, u), 8 - u, 0, u);
    NatBitsHead(b, 8, 8 - u);
    NatBitsZero(u);
    ByteBitsDef(b);
    if Shl(Shr(b, u), u) < 256 { ByteBitsDef(Shl(Shr(b, u), u)); }
    PowerPositive(u);
  }

  lemma ByteBitsDef(b: byte)
    ensures ByteBits(b) == NatBits(b, 8)
  {
  }

  lemma PowerPositive(n: nat)
    ensures Pow2(n) > 0
  {
  }

  /** The octets with the u low bits of the last one cleared. */
  function Masked(data: seq<byte>, u: nat): (m: seq<byte>)
    requires u <= 7
    ensures |m| == |data|
  {
    if data == [] then [] else data[..|data| - 1] + [MaskLow(data[|data| - 1], u)]
  }

  /** The encoder's header test; null pointers are the same as absent buffers. */
  predicate Accepted(st: BitString) {
    0 <= st.unused <= 7 && (st.unused != 0 ==> st.data != [] && st.present)
  }

  /** Octets emitted: the last one is masked only if one of its used bits is set. */
  function Emitted(st: BitString): seq<byte>
    requires Accepted(st)
  {
    if st.unused != 0 && MaskLow(st.data[|st.data| - 1], st.unused) != 0 then Masked(st.data, st.unused) else st.data
  }

  function OerBytes(st: BitString): seq<byte>
    requires Accepted(st) && 1 + |st.data| < Pow2(64)
  {
    LengthBytes(1 + |st.data|) + [st.unused] + Emitted(st)
  }

  /** Octets a string lacks of its fixed size. */
  function Lacking(st: BitString, ctSize: int): nat {
    if ctSize >= 0 && |st.data| < (ctSize + 7) / 8 then (ctSize + 7) / 8 - |st.data| else 0
  }

  /** Zeros one turn of the padding loop emits. */
  function TurnZeros(missing: nat): nat {
    if missing < 16 then missing else 16
  }

  /** What has been emitted after k turns of the padding loop. */
  function PaddedOutput(st: BitString, ctSize: nat, k: nat): seq<byte>
    requires Accepted(st)
  {
    Emitted(st) + Padded(st, ctSize, k)
  }

  /** The zeros of k turns. */
  function Padded(st: BitString, ctSize: nat, k: nat): seq<byte> {
    seq(k * TurnZeros(Lacking(st, ctSize)), _ => 0)
  }

  /**
   * BIT_STRING_encode_oer: the number of octets, or -1. A string shorter than its
   * fixed size is followed for as many turns of its padding loop as asked for;
   * ended tells whether the encoder returns by then.
   */
  method EncodeOer(st: BitString, ctSize: int, cb: Sink<byte>, turns: nat) returns (encoded: int, ended: bool)
    requires 1 + |st.data| < Pow2(64)
    modifies cb
    ensures encoded >= 0 <==> && 0 <= st.unused <= 7 && (st.unused > 0 ==> st.present && |st.data| > 0)
                              && (ctSize >= 0 ==> |st.data| <= (ctSize + 7) / 8)
    ensures encoded >= 0 ==> Accepted(st)
    ensures ended <==> encoded < 0 || ctSize < 0 || |st.data| == (ctSize + 7) / 8
    ensures encoded >= 0 && ctSize < 0 ==> cb.out == old(cb.out) + OerBytes(st) && encoded == |OerBytes(st)|
    ensures encoded >= 0 && ctSize >= 0 ==>
              cb.out == old(cb.out) + PaddedOutput(st, ctSize, if ended then 0 else turns)
              && encoded == |PaddedOutput(st, ctSize, if ended then 0 else turns)|
    ensures encoded < 0 ==> encoded == -1 && cb.out == old(cb.out)
  {
    hide LengthBytes, Pow2, Emitted;
    if !(0 <= st.unused <= 7) {
      return -1, true;
    }
    if st.unused != 0 && !(|st.data| > 0 && st.present) {
      return -1, true;
    }
    encoded := 0;
    var trailingZeros: nat := 0;
    if ctSize >= 0 {
      if |st.data| > (ctSize + 7) / 8 {
        return -1, true;
      }
      trailingZeros := (ctSize + 7) / 8 - |st.data|;
    } else {
      var length := SerializeLength(1 + |st.data|);
      cb.Consume(length);
      cb.Consume([st.unused]);
      encoded := encoded + |length| + 1;
    }
    var n := EmitOctets(st, cb);
    encoded := encoded + n;
    if ctSize < 0 {
      ghost var l, d := LengthBytes(1 + |st.data|) + [st.unused], Emitted(st);
      assert cb.out == old(cb.out) + (l + d);
    } else {
      Assoc(old(cb.out), Emitted(st), Padded(st, ctSize, if trailingZeros == 0 then 0 else turns));
      encoded := PutZeros(st, ctSize, trailingZeros, cb, turns, encoded);
    }
    ended := trailingZeros == 0;
  }

  /** The octets themselves, the last one fixed if need be. */
  method EmitOctets(st: BitString, cb: Sink<byte>) returns (n: nat)
    requires Accepted(st)
    modifies cb
    ensures cb.out == old(cb.out) + Emitted(st) && n == |Emitted(st)|
  {
    hide MaskLow;
    var fixLastByte := 0;
    if st.unused != 0 {
      if MaskLow(st.data[|st.data| - 1], st.unused) != 0 {
        fixLastByte := 1;
      }
    }
    cb.Consume(st.data[..|st.data| - fixLastByte]);
    if fixLastByte != 0 {
      cb.Consume([MaskLow(st.data[|st.data| - 1], st.unused)]);
    }
    n := |st.data|;
    assert st.data[..|st.data|] == st.data;
    EmittedParts(st, fixLastByte != 0);
  }

  /** The padding loop, for at most that many turns: trailingZeros is never reduced. */
  method PutZeros(ghost st: BitString, ghost ctSize: nat, trailingZeros: nat, cb: Sink<byte>, turns: nat, sofar: nat)
    returns (encoded: nat)
    requires trailingZeros == Lacking(st, ctSize)
    modifies cb
    ensures var k := if trailingZeros == 0 then 0 else turns;
            cb.out == old(cb.out) + Padded(st, ctSize, k) && encoded == sofar + |Padded(st, ctSize, k)|
  {
    encoded := sofar;
    var turn := 0;
    ghost var z := TurnZeros(trailingZeros);
    assert seq(0 * z, _ => 0) == [];
    while trailingZeros > 0 && turn < turns
      invariant turn <= turns && (trailingZeros == 0 ==> turn == 0)
      invariant cb.out == old(cb.out) + seq(turn * z, _ => 0)
      invariant encoded == sofar + turn * z
      decreases turns - turn
    {
      var n := if trailingZeros < 16 then trailingZeros else 16;
      cb.Consume(seq(n, _ => 0));
      encoded := encoded + n;
      MoreZeros(old(cb.out), turn, z);
      turn := turn + 1;
    }
  }

  lemma MoreZeros(w: seq<byte>, k: nat, z: nat)
    ensures k * z + z == (k + 1) * z
    ensures w + seq(k * z, _ => 0) + seq(z, _ => 0) == w + seq((k + 1) * z, _ => 0)
  {
    assert k * z + z == (k + 1) * z;
    var a: seq<byte>, b: seq<byte>, c: seq<byte> := seq(k * z, _ => 0), seq(z, _ => 0), seq((k + 1) * z, _ => 0);
    assert a + b == c;
  }

  lemma EmittedParts(st: BitString, fix: bool)
    requires Accepted(st) && fix == (st.unused != 0 && MaskLow(st.data[|st.data| - 1], st.unused) != 0)
    ensures Emitted(st) == if fix then st.data[..|st.data| - 1] + [MaskLow(st.data[|st.data| - 1], st.unused)] else st.data
  {
  }

  /**
   * A string shorter than its fixed size: the output grows with every turn, so it
   * passes any length, and has the fixed size only if a whole number of turns fills it.
   */
  lemma PaddingNeverEnds(st: BitString, ctSize: nat, k: nat)
    requires Accepted(st) && |st.data| < (ctSize + 7) / 8
    ensures var o, missing := PaddedOutput(st, ctSize, k), (ctSize + 7) / 8 - |st.data|;
            && |st.data| <= |o| && o[..|st.data|] == Emitted(st) && (forall i :: |st.data| <= i < |o| ==> o[i] == 0)
            && |o| == |st.data| + k * (if missing < 16 then missing else 16)
            && |o| >= |st.data| + k
            && o < PaddedOutput(st, ctSize, k + 1)
            && (|o| == (ctSize + 7) / 8 <==> k * (if missing < 16 then missing else 16) == missing)
  {
    hide Emitted, Masked, MaskLow;
    EmittedMasks(st);
    var z := TurnZeros(Lacking(st, ctSize));
    MoreZeros(Emitted(st), k, z);
    AtLeast(k, z);
  }

  lemma AtLeast(k: nat, z: nat)
    requires z >= 1
    ensures k * z >= k
  {
  }

  // ----- decoder -----

  datatype Decoded = Done(data: seq<byte>, unused: int, consumed: nat) | Starved | Failed

  function DecodeBytes(s: seq<byte>, ctSize: int): Decoded {
    if ctSize >= 0 then
      var n, u := (ctSize + 7) / 8, Padding(ctSize);
      if |s| < n then Starved else Done(Masked(s[..n], u), u, n)
    else
      match FetchedLength(s)
      case More => Starved
      case Bad => Failed
      case Got(len, k) =>
        if len < 1 then Failed
        else if len > |s| - k then Starved
        else if s[k] > 7 then Failed
        else Done(Masked(s[k + 1..k + len], s[k]), s[k], k + len)
  }

  /** BIT_STRING_decode_oer into the structure st, fresh or not. */
  method DecodeOer(st: Cell, s: seq<byte>, ctSize: int) returns (rc: Rc, consumed: nat)
    requires st.Valid()
    modifies st
    ensures st.Valid()
    ensures match DecodeBytes(s, ctSize)
            case Starved => rc == WMore && consumed == 0
            case Failed => rc == Fail && consumed == 0
            case Done(data, unused, k) =>
              rc == Ok && consumed == k && st.View() == BitString(true, data, unused) && st.block[st.size] == 0
  {
    hide FetchedLength, MaskLow;
    var expected, ptr, unused := 0, 0, 0;
    if ctSize >= 0 {
      expected := (ctSize + 7) / 8;
      unused := (8 - ctSize % 8) % 8;
    } else {
      var r := FetchLength(s);
      match r
      case More => return WMore, 0;
      case Bad => return Fail, 0;
      case Got(len, k) =>
        if len < 1 {
          return Fail, 0;
        } else if len > |s| - k {
          return WMore, 0;
        }
        unused := s[k];
        if unused > 7 {
          return Fail, 0;
        }
        ptr, expected := k + 1, len - 1;
    }
    if |s| - ptr < expected {
      return WMore, 0;
    }
    var octets := s[ptr..ptr + expected];
    var buf := octets + [0];
    if expected > 0 {
      buf := buf[expected - 1 := MaskLow(octets[expected - 1], unused)];
    }
    st.present, st.block, st.size, st.unused := true, buf, expected, unused;
    assert buf[..expected] == Masked(octets, unused);
    assert s[0..expected] == s[..expected];
    rc, consumed := Ok, ptr + expected;
  }

  // ----- theorems -----

  /** Masking keeps the used bits and clears the padding. */
  lemma MaskedBits(data: seq<byte>, u: nat)
    requires u <= 7 && (data == [] ==> u == 0)
    ensures BytesBits(Masked(data, u)) == BytesBits(data)[..8 * |data| - u] + Zeros(u)
  {
    hide BytesBits, ByteBits, MaskLow, Zeros;
    if data != [] {
      var i, b := data[..|data| - 1], data[|data| - 1];
      assert data == i + [b];
      BytesBitsConcat(i, [b]);
      BytesBitsConcat(i, [MaskLow(b, u)]);
      SingleByte(b);
      SingleByte(MaskLow(b, u));
      MaskLowMeaning(b, u);
      assert BytesBits(data)[..8 * |data| - u] == BytesBits(i) + ByteBits(b)[..8 - u];
      Assoc(BytesBits(i), ByteBits(b)[..8 - u], Zeros(u));
    } else {
      NothingThere();
    }
  }

  lemma MaskLowMeaning(b: byte, u: nat)
    requires u <= 7
    ensures ByteBits(MaskLow(b, u)) == ByteBits(b)[..8 - u] + Zeros(u)
  {
    hide ByteBits, Zeros, Shl, Shr;
    MaskLowBits(b, u);
  }

  /** The octets emitted: the used bits and zeros if a used bit of the last octet is set, or else the octets as they are. */
  lemma EmittedBits(st: BitString)
    requires Accepted(st) && st.data != []
    ensures var n, u := 8 * |st.data|, st.unused;
            if exists i :: n - 8 <= i < n - u && BytesBits(st.data)[i]
            then BytesBits(Emitted(st)) == BytesBits(st.data)[..n - u] + Zeros(u)
            else Emitted(st) == st.data
  {
    hide BytesBits, ByteBits, MaskLow, Zeros;
    var d, n, u := st.data, 8 * |st.data|, st.unused;
    var b := d[|d| - 1];
    LastOctet(d);
    MaskedBits(d, u);
    MaskLowZero(b, u);
    if u == 0 {
      MaskedTwice(d, 0);
    }
  }

  lemma LastOctet(d: seq<byte>)
    requires d != []
    ensures BytesBits(d)[8 * |d| - 8..] == ByteBits(d[|d| - 1])
    ensures forall i :: 8 * |d| - 8 <= i < 8 * |d| ==> BytesBits(d)[i] == ByteBits(d[|d| - 1])[i - (8 * |d| - 8)]
  {
    hide ByteBits;
    var i := d[..|d| - 1];
    assert d == i + [d[|d| - 1]];
    BytesBitsConcat(i, [d[|d| - 1]]);
    SingleByte(d[|d| - 1]);
  }

  lemma MaskLowZero(b: byte, u: nat)
    requires u <= 7
    ensures MaskLow(b, u) == 0 <==> forall i :: 0 <= i < 8 - u ==> !ByteBits(b)[i]
  {
    hide MaskLow, ByteBits, Zeros;
    MaskLowMeaning(b, u);
    ZeroOctet();
    ByteBitsToByte(MaskLow(b, u));
    ByteBitsToByte(0);
    ZerosAll(ByteBits(b)[..8 - u], u);
    assert forall i :: 0 <= i < 8 - u ==> ByteBits(b)[..8 - u][i] == ByteBits(b)[i];
  }

  lemma ZerosAll(x: seq<bool>, u: nat)
    ensures x + Zeros(u) == Zeros(|x| + u) <==> forall i :: 0 <= i < |x| ==> !x[i]
  {
    if x + Zeros(u) == Zeros(|x| + u) {
      forall i | 0 <= i < |x|
        ensures !x[i]
      {
        assert x[i] == (x + Zeros(u))[i];
      }
    }
  }

  /**
   * What the decoder makes of any octets under a fixed size: it asks for more or
   * reads that many bits and clears the rest of the last octet.
   */
  lemma OerFixedExactly(s: seq<byte>, ctSize: nat)
    ensures var r, n := DecodeBytes(s, ctSize), (ctSize + 7) / 8;
            if |s| < n then r == Starved
            else && r.Done? && r.consumed == n && |r.data| == n && r.unused == 8 * n - ctSize
                 && BytesBits(r.data) == BytesBits(s)[..ctSize] + Zeros(8 * n - ctSize)
  {
    hide BytesBits, Masked, Zeros;
    var n := (ctSize + 7) / 8;
    if |s| >= n {
      PaddingOf(ctSize, n);
      MaskedBits(s[..n], Padding(ctSize));
      BytesBitsConcat(s[..n], s[n..]);
      Cut(s, n, n);
    }
  }

  /**
   * What it makes of any octets behind a length: the outcome, and the bits kept of
   * those the length covers.
   */
  lemma OerExactly(s: seq<byte>)
    ensures var r, f := DecodeBytes(s, -1), FetchedLength(s);
            && (r.Failed? <==> f.Bad? || (f.Got? && (f.length == 0 || (f.used + f.length <= |s| && s[f.used] > 7))))
            && (r.Starved? <==> f.More? || (f.Got? && f.length > 0 && f.used + f.length > |s|))
            && (r.Done? ==>
                  && r.consumed == f.used + f.length && r.unused == s[f.used] && |r.data| == f.length - 1
                  && (f.length > 1 ==>
                        BytesBits(r.data) == BytesBits(s[f.used + 1..f.used + f.length])[..8 * |r.data| - r.unused]
                                             + Zeros(r.unused)))
  {
    hide BytesBits, Masked, Zeros, FetchedLength;
    var r, f := DecodeBytes(s, -1), FetchedLength(s);
    if r.Done? && f.length > 1 {
      MaskedBits(s[f.used + 1..f.used + f.length], s[f.used]);
    }
  }

  lemma MaskLowTwice(b: byte, u: nat)
    requires u <= 7
    ensures MaskLow(MaskLow(b, u), u) == MaskLow(b, u) && MaskLow(b, 0) == b
  {
    hide Pow2;
    PowerPositive(u);
    ShiftJoin(Shr(b, u), 0, u);
  }

  lemma MaskedTwice(data: seq<byte>, u: nat)
    requires u <= 7
    ensures Masked(Masked(data, u), u) == Masked(data, u) && Masked(data, 0) == data
  {
    hide MaskLow;
    if data != [] {
      MaskLowTwice(data[|data| - 1], u);
      assert Masked(data, u)[..|data| - 1] == data[..|data| - 1];
    }
  }

  /** A masked value is a proper BIT STRING with the same used bits. */
  lemma MaskedValue(st: BitString)
    requires Accepted(st)
    ensures var w := BitString(true, Masked(st.data, st.unused), st.unused);
            WellFormed(w) && UsedBits(w) == UsedBits(st)
  {
    hide BytesBits, Masked;
    MaskedBits(st.data, st.unused);
    assert |Masked(st.data, st.unused)| == |st.data|;
  }

  lemma EmittedMasks(st: BitString)
    requires Accepted(st)
    ensures |Emitted(st)| == |st.data| && Masked(Emitted(st), st.unused) == Masked(st.data, st.unused)
  {
    hide MaskLow;
    MaskedTwice(st.data, st.unused);
  }

  lemma Layout(a: seq<byte>, u: byte, d: seq<byte>, rest: seq<byte>)
    ensures var s := a + [u] + d + rest;
            && s == a + ([u] + d + rest) && |s| == |a| + 1 + |d| + |rest|
            && s[|a|] == u && s[|a| + 1..|a| + 1 + |d|] == d
  {
  }

  /**
   * OER round trip: decoding gives the octets with their padding cleared, even if
   * the value carried stray padding bits; consumed is what was emitted. It works
   * exactly for strings whose length the decoder admits.
   */
  lemma OerRoundTrip(st: BitString, rest: seq<byte>)
    requires Accepted(st) && 1 + |st.data| < Pow2(64)
    ensures DecodeBytes(OerBytes(st) + rest, -1) ==
              if 1 + |st.data| <= RSIZE_MAX
              then Done(Masked(st.data, st.unused), st.unused, |OerBytes(st)|)
              else Failed
  {
    hide LengthBytes, FetchedLength, Emitted, Masked, Pow2;
    var a, d := LengthBytes(1 + |st.data|), Emitted(st);
    EmittedMasks(st);
    Layout(a, st.unused, d, rest);
    LengthInverse(1 + |st.data|, [st.unused as byte] + d + rest);
  }

  /** The decoded value is proper and holds the same bits as the value encoded. */
  lemma OerRoundTripValue(st: BitString)
    requires Accepted(st) && 1 + |st.data| <= RSIZE_MAX && 1 + |st.data| < Pow2(64)
    ensures var r := DecodeBytes(OerBytes(st), -1);
            && r.Done? && r.consumed == |OerBytes(st)|
            && var w := BitString(true, r.data, r.unused);
               WellFormed(w) && UsedBits(w) == UsedBits(st) && (PaddingZero(st) ==> Compare(w, st) == 0)
  {
    hide OerBytes, DecodeBytes, BytesBits, Masked, Pow2, Compare;
    OerRoundTrip(st, []);
    assert OerBytes(st) + [] == OerBytes(st);
    MaskedValue(st);
    var w := BitString(true, Masked(st.data, st.unused), st.unused);
    if PaddingZero(st) {
      CompactionKeepsValue(st);
      CompactionKeepsValue(w);
      CompactedBits(st.data);
      CompactedBits(w.data);
      CompareZero(w, st);
    }
  }

  /** Fetching a length from a strict prefix of its octets asks for more. */
  lemma LengthPrefix(n: nat, k: nat)
    requires n < Pow2(64) && k < |LengthBytes(n)|
    ensures FetchedLength(LengthBytes(n)[..k]) == More
  {
    hide Pow2, NatBytes;
    WidthBound(n, SIZE_BYTES);
  }

  /** Every strict prefix of an encoding starves. */
  lemma OerPrefixStarves(st: BitString, k: nat)
    requires Accepted(st) && 1 + |st.data| <= RSIZE_MAX && 1 + |st.data| < Pow2(64) && k < |OerBytes(st)|
    ensures DecodeBytes(OerBytes(st)[..k], -1) == Starved
  {
    hide LengthBytes, FetchedLength, Emitted, Masked, Pow2;
    var a, d := LengthBytes(1 + |st.data|), Emitted(st);
    var e := OerBytes(st)[..k];
    EmittedMasks(st);
    if k < |a| {
      assert e == a[..k];
      LengthPrefix(1 + |st.data|, k);
    } else {
      assert e == a + ([st.unused as byte] + d)[..k - |a|];
      LengthInverse(1 + |st.data|, ([st.unused as byte] + d)[..k - |a|]);
    }
  }

  /**
   * The encoder announces canonical octets. Stray padding bits reach the output
   * exactly when every used bit of the last octet is zero.
   */
  lemma OerCanonicalWhen(st: BitString)
    requires Accepted(st) && 1 + |st.data| < Pow2(64)
    ensures OerBytes(st) == OerBytes(st.(data := Masked(st.data, st.unused)))
            <==> (PaddingZero(st) || MaskLow(st.data[|st.data| - 1], st.unused) != 0)
  {
    hide LengthBytes, MaskLow, Pow2, BytesBits, Emitted, Masked;
    var m := st.(data := Masked(st.data, st.unused));
    PaddingZeroMeans(st);
    EmittedCanonical(st);
    SamePrefix(LengthBytes(1 + |st.data|) + [st.unused as byte], Emitted(st), Emitted(m));
  }

  lemma SamePrefix(a: seq<byte>, x: seq<byte>, y: seq<byte>)
    ensures a + x == a + y <==> x == y
  {
    assert (a + x)[|a|..] == x && (a + y)[|a|..] == y;
  }

  lemma EmittedCanonical(st: BitString)
    requires Accepted(st)
    ensures var m := st.(data := Masked(st.data, st.unused));
            Emitted(st) == Emitted(m)
            <==> (Masked(st.data, st.unused) == st.data || MaskLow(st.data[|st.data| - 1], st.unused) != 0)
  {
    hide MaskLow;
    MaskedTwice(st.data, st.unused);
    if st.unused == 0 {
      MaskedTwice(st.data, 0);
    }
  }

  lemma PaddingZeroMeans(st: BitString)
    requires Accepted(st)
    ensures PaddingZero(st) <==> Masked(st.data, st.unused) == st.data
  {
    hide BytesBits, Masked;
    var n := 8 * |st.data| - st.unused;
    MaskedBits(st.data, st.unused);
    var m := Masked(st.data, st.unused);
    assert |m| == |st.data|;
    if PaddingZero(st) {
      assert BytesBits(st.data) == BytesBits(st.data)[..n] + Zeros(st.unused);
      BytesBitsInjective(m, st.data);
    }
  }

  /** Stray padding under zero used bits: the octet 0x01 with four unused bits is emitted as it is. */
  lemma OerStrayPadding()
    ensures Emitted(BitString(true, [0x01], 4)) == [0x01] && MaskLow(0x01, 4) == 0
  {
    hide Shl;
    assert Shr(1, 4) == Shr(0, 3) == Shr(0, 2) == Shr(0, 1) == 0;
    ZeroShifted(4);
  }

  lemma {:induction false} ZeroShifted(k: nat)
    ensures Shl(0, k) == 0
  {
    if k > 0 { ZeroShifted(k - 1); }
  }

  /**
   * What the decoder accepts meets BIT_STRING_constraint exactly unless the length
   * octets announce an empty string with a non-zero count of unused bits.
   */
  lemma OerDecodedProper(s: seq<byte>)
    requires DecodeBytes(s, -1).Done?
    ensures var r := DecodeBytes(s, -1);
            var f := FetchedLength(s);
            Constraint(BitString(true, r.data, r.unused)) == 0 <==> !(f.length == 1 && s[f.used] != 0)
  {
    hide FetchedLength, MaskLow;
  }

  /**
   * Length 1 with three unused bits is accepted as an empty string that is not
   * proper and does not compare equal to the empty string.
   */
  lemma OerStrayEmpty()
    ensures DecodeBytes([1, 3], -1) == Done([], 3, 2) && DecodeBytes([1, 0], -1) == Done([], 0, 2)
    ensures Compare(BitString(true, [], 3), BitString(true, [], 0)) == -1
  {
    StrayBitsCompare();
  }

  /** Fixed size: a proper value of the constrained number of octets comes back exactly when its size is the fixed one. */
  lemma OerFixedRoundTrip(st: BitString, ctSize: nat, rest: seq<byte>)
    requires Accepted(st) && WellFormed(st) && |st.data| == (ctSize + 7) / 8
    ensures var r := DecodeBytes(Emitted(st) + rest, ctSize);
            && r.Done? && r.consumed == |Emitted(st)|
            && (r.data == st.data && r.unused == st.unused <==> 8 * |st.data| - st.unused == ctSize)
  {
    hide BytesBits, MaskLow;
    PaddingZeroMeans(st);
    EmittedMasks(st);
    PaddingOf(ctSize, |st.data|);
    assert (Emitted(st) + rest)[..|st.data|] == Emitted(st);
    assert Emitted(st) == st.data;
  }
}
