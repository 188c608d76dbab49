/**
 * ANY_uper.c and ANY_aper.c: open-type octets as fragments counted in octets.
 * Neither looks at constraints.
 */
module AnyPer {
  import opened Bits
  import opened BitData
  import opened BitStr
  import opened PerFraming
  import opened PerLoops

  /** The fragments of an octet string. */
  function AnyBits(data: seq<byte>): seq<bool> {
    Frame(BytesBits(data), |data|, 8)
  }

  lemma AllBits(data: seq<byte>)
    ensures FirstBits(data, Scale(|data|, 8)) == BytesBits(data)
  {
  }

  /** ANY_encode_uper. */
  method EncodeUper(st: BitString, po: BitOut) returns (ok: bool)
    requires po.Valid()
    modifies po, po.tmpspace
    ensures po.Valid() && (ok <==> st.present || st.data == [])   // a missing buffer is fine for the empty string only
    ensures po.Contents() == old(po.Contents()) + if ok then AnyBits(st.data) else []
  {
    hide Frame, FirstBits, BytesBits;
    if !st.present && |st.data| > 0 {
      assert po.Contents() + [] == po.Contents();
      return false;
    }
    AllBits(st.data);
    assert po.Contents() + Zeros(Gap(false, |po.Contents()|)) == po.Contents();
    PutFrame(po, st.data, |st.data|, 8, false);
    ok := true;
  }

  /** ANY_encode_aper: every determinant starts on an octet boundary. */
  method EncodeAper(st: BitString, po: BitOut) returns (ok: bool)
    requires po.Valid()
    modifies po, po.tmpspace
    ensures po.Valid() && (ok <==> st.present || st.data == [])   // a missing buffer is fine for the empty string only
    ensures po.Contents() == old(po.Contents()) +
              if ok then Zeros(Padding(|old(po.Contents())|)) + AnyBits(st.data) else []
  {
    hide Frame, FirstBits, BytesBits, Padding, Zeros;
    if !st.present && |st.data| > 0 {
      assert po.Contents() + [] == po.Contents();
      return false;
    }
    AllBits(st.data);
    Assoc(po.Contents(), Zeros(Padding(|po.Contents()|)), AnyBits(st.data));
    PutFrame(po, st.data, |st.data|, 8, true);
    ok := true;
  }

  /** What an ANY decoder reads: octets, their position in the stream, and the bits it reports. */
  datatype Decoded = Octets(data: seq<byte>, used: nat, consumed: nat) | Short

  function DecodeUperBits(s: seq<bool>): Decoded {
    match Unframe(s, -1, 0, 8)
    case Starved => Short
    case Payload(bits, used, _) => Octets(Pack(bits), used, |bits|)
  }

  /**
   * The aligned decoder at a bit position, with the ebits argument its
   * aper_get_length call passes. ANY_decode_aper passes 0.
   */
  function DecodeAperBits(s: seq<bool>, position: nat, ebits: int): Decoded {
    var a := Padding(position);
    if |s| < a then Short
    else
      match Unframe(s[a..], ebits, 0, 8)
      case Starved => Short
      case Payload(bits, used, _) => Octets(Pack(bits), a + used, |bits|)
  }

  const ANY_APER_EBITS: int := 0

  /** ANY_decode_uper into the structure st, fresh or not. */
  method DecodeUper(st: Cell, pd: BitIn) returns (rc: Rc, consumed: nat)
    requires st.Valid() && pd.Valid()
    modifies st, pd
    ensures st.Valid() && pd.Valid()
    ensures var r := DecodeUperBits(old(pd.Ahead()));
            if r.Short? then rc == WMore
            else
              && rc == Ok && st.View().present && st.View().data == r.data && st.block[st.size] == 0
              && consumed == r.consumed && r.used <= |old(pd.Ahead())| && pd.Ahead() == old(pd.Ahead())[r.used..]
  {
    hide Pack, BytesBits, Unframe;
    assert pd.Ahead()[0..] == pd.Ahead();
    rc, consumed := GetFrame(st, pd, -1, 0, 8, false);
  }

  /** ANY_decode_aper into the structure st, fresh or not. */
  method DecodeAper(st: Cell, pd: BitIn) returns (rc: Rc, consumed: nat)
    requires st.Valid() && pd.Valid()
    modifies st, pd
    ensures st.Valid() && pd.Valid()
    ensures var r := DecodeAperBits(old(pd.Ahead()), old(pd.Position()), ANY_APER_EBITS);
            if r.Short? then rc == WMore
            else
              && rc == Ok && st.View().present && st.View().data == r.data && st.block[st.size] == 0
              && consumed == r.consumed && r.used <= |old(pd.Ahead())| && pd.Ahead() == old(pd.Ahead())[r.used..]
  {
    hide Pack, BytesBits, Unframe, Padding;
    rc, consumed := GetFrame(st, pd, ANY_APER_EBITS, 0, 8, true);
  }

  // ----- theorems -----

  /**
   * UPER: every octet string, empty or many fragments long, decodes to itself,
   * whatever follows; the decoder reports 8 bits an octet.
   */
  lemma AnyUperRoundTrip(data: seq<byte>, rest: seq<bool>)
    ensures DecodeUperBits(AnyBits(data) + rest) == Octets(data, |AnyBits(data)|, 8 * |data|)
  {
    hide Pack, BytesBits, Frame, Unframe;
    FrameInverse(BytesBits(data), |data|, -1, 0, 8, rest);
    PackBytesBits(data);
  }

  /** The aligned stream of an octet string written at a bit position. */
  function AperStream(data: seq<byte>, position: nat): seq<bool> {
    Zeros(Padding(position)) + AnyBits(data)
  }

  /** The aligned encoding is invertible: a decoder that passed -1 for ebits would get the octets back. */
  lemma AnyAperInvertible(data: seq<byte>, position: nat, rest: seq<bool>)
    ensures DecodeAperBits(AperStream(data, position) + rest, position, -1)
         == Octets(data, |AperStream(data, position)|, 8 * |data|)
  {
    hide Pack, BytesBits, Frame, Unframe, Padding;
    var s := AperStream(data, position) + rest;
    assert s[Padding(position)..] == AnyBits(data) + rest;
    FrameInverse(BytesBits(data), |data|, -1, 0, 8, rest);
    PackBytesBits(data);
  }

  /**
   * With ebits 0 no length is ever read: ANY_decode_aper yields the empty string
   * from any stream that reaches the next octet boundary.
   */
  lemma AnyAperReadsNothing(s: seq<bool>, position: nat)
    ensures DecodeAperBits(s, position, ANY_APER_EBITS)
         == if |s| < (8 - position % 8) % 8 then Short else Octets([], (8 - position % 8) % 8, 0)
  {
    if |s| >= Padding(position) {
      var t := s[Padding(position)..];
      assert GetLength(t, 0, 0) == Length(0, 0, false);
      assert t[0..][..0] == [];
      assert Unframe(t, 0, 0, 8) == Payload([], 0, [0]);
    }
  }

  /**
   * APER: ANY_decode_aper gives back what ANY_encode_aper wrote exactly for the
   * empty string, and even then the written length is left in the stream.
   */
  lemma AnyAperRoundTrip(data: seq<byte>, position: nat, rest: seq<bool>)
    ensures var r := DecodeAperBits(AperStream(data, position) + rest, position, ANY_APER_EBITS);
            r.Octets? && (r.data == data <==> data == []) && r.used < |AperStream(data, position)|
  {
    hide Padding, BytesBits;
    AnyAperReadsNothing(AperStream(data, position) + rest, position);
  }

  /** A concrete loss: one octet written on an octet boundary comes back as none. */
  lemma AnyAperLosesOctet()
    ensures DecodeAperBits(AperStream([0x2A], 0), 0, ANY_APER_EBITS).data == []
  {
    AnyAperReadsNothing(AperStream([0x2A], 0), 0);
  }

  /**
   * What ANY_decode_uper makes of any stream: one fragment after another is
   * appended until one is shorter than 16K octets, and missing bits or a bad
   * determinant lose everything.
   */
  lemma AnyUperExactly(s: seq<bool>)
    ensures var r := GetDeterminant(s);
            DecodeUperBits(s) ==
              if r.NoLength? || |s| < r.used + 8 * r.value then Short
              else
                var k, w := r.used, 8 * r.value;
                if r.value < 16384 then Octets(Pack(s[k..k + w]), k + w, w)
                else
                  var more := DecodeUperBits(s[k + w..]);
                  if more.Short? then Short
                  else Octets(Pack(s[k..k + w]) + more.data, k + w + more.used, w + more.consumed)
  {
    hide GetDeterminant, Unframe, Pack;
    UnframeExactly(s, -1, 0, 8);
    var r := GetDeterminant(s);
    if r.Length? && |s| >= r.used + 8 * r.value {
      var k, w := r.used, 8 * r.value;
      var more := Unframe(s[k + w..], -1, 0, 8);
      if r.value >= 16384 && more.Payload? {
        PackConcat(s[k..k + w], more.bits);
      }
    }
  }

  /** Every strict prefix of an encoding asks for more. */
  lemma AnyPrefixStarves(data: seq<byte>, cut: nat)
    requires cut < |AnyBits(data)|
    ensures DecodeUperBits(AnyBits(data)[..cut]) == Short
  {
    hide Frame, Unframe, BytesBits;
    FramePrefixStarves(BytesBits(data), |data|, -1, 0, 8, cut);
  }

  /** The octets 193, 16384 of content, 0: sixteen-K octets are one full fragment and a terminator. */
  lemma SixteenK(data: seq<byte>)
    requires |data| == 16384
    ensures var e := AnyBits(data);
            |e| == 8 + 131072 + 8 && BitsNat(e[..8]) == 193 && e[8..131080] == BytesBits(data) && e[131080..] == Zeros(8)
  {
    hide Frame, BytesBits, BitsNat;
    var p := BytesBits(data);
    FragmentOctets(p, 16384, 8);
    assert p[..131072] == p && p[131072..] == [];
    Empty(8);
    assert AnyBits(data)[131080..] == Zeros(8);
  }
}
