/**
 * The fragment loops shared by the PER codecs: what BIT_STRING_encode_uper,
 * ANY_encode_uper and ANY_encode_aper do to write a frame, and what their
 * decoders do to read one into a growing block.
 */
module PerLoops {
  import opened Bits
  import opened BitData
  import opened BitStr
  import opened PerFraming

  lemma FrameStep(d: seq<byte>, left: nat, u: nat)
    requires Unit(u) && Scale(left, u) <= 8 * |d|
    ensures var m := Chunk(left);
            && (m < left ==> Scale(m, u) % 8 == 0 && Scale(m, u) / 8 <= |d|
                             && Scale(left - m, u) <= 8 * |d[Scale(m, u) / 8..]|)
            && Frame(FirstBits(d, Scale(left, u)), left, u)
               == Determinant(left) + FirstBits(d, Scale(m, u)) +
                  (if m < left then Frame(FirstBits(d[Scale(m, u) / 8..], Scale(left - m, u)), left - m, u)
                   else Terminator(left))
  {
    hide Determinant, BytesBits;
    var m := Chunk(left);
    var p := FirstBits(d, Scale(left, u));
    assert p[..Scale(m, u)] == FirstBits(d, Scale(m, u));
    if m < left {
      var k := Scale(m, u) / 8;
      Cut(d, k, k);
      BytesBitsConcat(d[..k], d[k..]);
      assert p[Scale(m, u)..] == FirstBits(d[k..], Scale(left - m, u));
    }
  }

  lemma PaddingOfSame(n: nat, k: nat)
    requires n % 8 == k % 8
    ensures Padding(n) == (8 - k % 8) % 8
  {
  }

  /** aper_put_align. */
  method AperPutAlign(po: BitOut)
    requires po.Valid()
    modifies po, po.tmpspace
    ensures po.Valid() && po.Contents() == old(po.Contents()) + Zeros(Padding(|old(po.Contents())|))
  {
    hide NatBits, Padding, FirstBits;
    po.PositionMod8();
    PaddingOfSame(|po.Contents()|, po.nboff);
    if po.nboff % 8 != 0 {
      NatBitsZero(8 - po.nboff % 8);
      var rc := po.PutFewBits(0, 8 - po.nboff % 8);
    } else {
      assert po.Contents() + Zeros(0) == po.Contents();
    }
  }

  /** Zero bits written before a determinant of an aligned encoding. */
  function Gap(aligned: bool, position: nat): nat {
    if aligned then Padding(position) else 0
  }

  /** uper_put_length, or aper_put_length without bounds: alignment first. */
  method PutLength(po: BitOut, length: nat, aligned: bool) returns (saved: int, needEom: bool)
    requires po.Valid()
    modifies po, po.tmpspace
    ensures po.Valid()
    ensures po.Contents() == old(po.Contents()) + Zeros(Gap(aligned, |old(po.Contents())|)) + Determinant(length)
    ensures saved == Chunk(length)
    ensures needEom == (length >= K16 && Chunk(length) == length)
  {
    hide Determinant, Chunk, Padding;
    if aligned {
      AperPutAlign(po);
    } else {
      assert po.Contents() + Zeros(0) == po.Contents();
    }
    saved, needEom := UperPutLength(po, length);
  }

  /** What one round of the fragment loop writes. */
  ghost function RoundBits(buf: seq<byte>, size: nat, u: nat): seq<bool>
    requires Unit(u) && Scale(size, u) <= 8 * |buf|
  {
    Determinant(size) + FirstBits(buf, Scale(Chunk(size), u)) + (if Chunk(size) < size then [] else Terminator(size))
  }

  /** One round of the fragment loop: determinant, fragment, terminator if asked for. */
  method PutRound(po: BitOut, buf: seq<byte>, size: nat, u: nat, aligned: bool) returns (maySave: nat)
    requires po.Valid() && Unit(u) && Scale(size, u) <= 8 * |buf| && (aligned ==> u == 8)
    modifies po, po.tmpspace
    ensures po.Valid() && maySave == Chunk(size)
    ensures po.Contents() == old(po.Contents()) + Zeros(Gap(aligned, |old(po.Contents())|)) + RoundBits(buf, size, u)
    ensures aligned ==> |po.Contents()| % 8 == 0
  {
    hide FirstBits, Gap, Determinant, Chunk, Terminator, Zeros;
    ghost var start := po.Contents() + Zeros(Gap(aligned, |po.Contents()|));
    AfterGap(aligned, |po.Contents()|);
    var saved, needEom := PutLength(po, size, aligned);
    maySave := saved;
    var m := Scale(maySave, u);
    var rc := po.PutManyBits(buf, m);
    if aligned {
      WholeOctets(|start|, |Determinant(size)|, m);
    }
    PutEom(po, needEom, aligned);
    EndOfMessage(size);
    RoundAssoc(start, Determinant(size), FirstBits(buf, m), if needEom then Determinant(0) else []);
  }

  lemma WholeOctets(a: nat, b: nat, c: nat)
    requires a % 8 == 0 && b % 8 == 0 && c % 8 == 0
    ensures (a + b) % 8 == 0 && (a + b + c) % 8 == 0
  {
  }

  lemma AfterGap(aligned: bool, n: nat)
    ensures aligned ==> (n + Gap(aligned, n)) % 8 == 0
  {
  }

  /** The zero-length terminator. */
  method PutEom(po: BitOut, needEom: bool, aligned: bool)
    requires po.Valid() && (aligned ==> |po.Contents()| % 8 == 0)
    modifies po, po.tmpspace
    ensures po.Valid() && (aligned ==> |po.Contents()| % 8 == 0)
    ensures po.Contents() == old(po.Contents()) + (if needEom then Determinant(0) else [])
  {
    hide Determinant, Gap, Chunk;
    if needEom {
      NoGap(aligned, po.Contents());
      var _, _ := PutLength(po, 0, aligned);
    } else {
      assert po.Contents() + [] == po.Contents();
    }
  }

  lemma EndOfMessage(n: nat)
    ensures (if Chunk(n) < n then [] else Terminator(n)) == if n >= K16 && Chunk(n) == n then Determinant(0) else []
  {
  }

  lemma NoGap(aligned: bool, bits: seq<bool>)
    requires aligned ==> |bits| % 8 == 0
    ensures bits + Zeros(Gap(aligned, |bits|)) == bits
  {
  }

  lemma RoundAssoc(a: seq<bool>, d: seq<bool>, f: seq<bool>, t: seq<bool>)
    ensures a + (d + f + t) == a + d + f + t
  {
  }

  /**
   * The fragment loop shared by the PER encoders: count units of u bits taken from
   * d. The aligned variant (aper_put_length) aligns before every determinant.
   */
  method PutFrame(po: BitOut, d: seq<byte>, count: nat, u: nat, aligned: bool)
    requires po.Valid() && Unit(u) && Scale(count, u) <= 8 * |d| && (aligned ==> u == 8)
    modifies po, po.tmpspace
    ensures po.Valid()
    ensures po.Contents() == old(po.Contents()) + Zeros(Gap(aligned, |old(po.Contents())|))
                             + Frame(FirstBits(d, Scale(count, u)), count, u)
  {
    hide Frame, Determinant, FirstBits, Terminator, Padding, RoundBits;
    ghost var target := po.Contents() + Zeros(Gap(aligned, |po.Contents()|))
                        + Frame(FirstBits(d, Scale(count, u)), count, u);
    var buf, size: nat, more := d, count, true;
    while more
      invariant po.Valid() && Scale(size, u) <= 8 * |buf|
      invariant more ==> po.Contents() + Zeros(Gap(aligned, |po.Contents()|))
                         + Frame(FirstBits(buf, Scale(size, u)), size, u) == target
      invariant !more ==> po.Contents() == target
      decreases size, more
    {
      RoundThenRest(buf, size, u);
      ghost var was, start := size, po.Contents() + Zeros(Gap(aligned, |po.Contents()|));
      var maySave := PutRound(po, buf, size, u, aligned);
      size := size - maySave;
      assert maySave % 8 == 0 || size == 0;
      NoGap(aligned, po.Contents());
      if size > 0 {
        Assoc(start, RoundBits(buf, was, u), Frame(FirstBits(buf[Scale(maySave, u) / 8..], Scale(size, u)), size, u));
        buf := buf[Scale(maySave, u) / 8..];
      }
      more := size > 0;
    }
  }

  lemma RoundThenRest(d: seq<byte>, left: nat, u: nat)
    requires Unit(u) && Scale(left, u) <= 8 * |d|
    ensures var m := Chunk(left);
            && (m < left ==> m % 8 == 0 && Scale(m, u) / 8 <= |d| && Scale(left - m, u) <= 8 * |d[Scale(m, u) / 8..]|)
            && Frame(FirstBits(d, Scale(left, u)), left, u) ==
               if m < left then RoundBits(d, left, u)
                                + Frame(FirstBits(d[Scale(m, u) / 8..], Scale(left - m, u)), left - m, u)
               else RoundBits(d, left, u)
  {
    hide Frame, Determinant, FirstBits, Terminator;
    FrameStep(d, left, u);
    var m := Chunk(left);
    if m < left {
      assert RoundBits(d, left, u) == Determinant(left) + FirstBits(d, Scale(m, u));
    }
  }

  // ----- decoding -----

  /** aper_get_align. */
  method AperGetAlign(pd: BitIn) returns (rc: int)
    requires pd.Valid()
    modifies pd
    ensures pd.Valid() && pd.End() == old(pd.End())
    ensures var s, a := old(pd.Ahead()), Padding(old(pd.Position()));
            if a <= |s| then rc >= 0 && pd.Ahead() == s[a..] else rc == -1
  {
    hide *;
    PaddingOfSame(pd.Position(), pd.nboff);
    if pd.nboff % 8 != 0 {
      rc := pd.GetFewBits(8 - pd.nboff % 8);
    } else {
      rc := 0;
      assert pd.Ahead()[0..] == pd.Ahead();
    }
  }

  /** The length read by one round, after alignment if the variant aligns. */
  ghost function LengthAt(s: seq<bool>, position: nat, ebits: int, lb: nat, aligned: bool): (r: Length)
    ensures r.Length? ==> Gap(aligned, position) + r.used <= |s|
  {
    var a := Gap(aligned, position);
    if |s| < a then NoLength else GetLength(s[a..], ebits, lb)
  }

  /** uper_get_length, or aper_get_length without bounds: alignment first. */
  method GetRaw(pd: BitIn, ebits: int, lb: nat, aligned: bool) returns (value: int, repeat: bool)
    requires pd.Valid()
    modifies pd
    ensures pd.Valid() && pd.End() == old(pd.End())
    ensures var s, p := old(pd.Ahead()), old(pd.Position());
            var r := LengthAt(s, p, ebits, lb, aligned);
            && (r.NoLength? ==> value == -1)
            && (r.Length? ==> value == r.value && repeat == r.repeat && pd.Ahead() == s[Gap(aligned, p)..][r.used..])
  {
    hide Padding, GetLength, BytesBits;
    if aligned {
      var rc := AperGetAlign(pd);
      if rc < 0 {
        return -1, false;
      }
    } else {
      assert pd.Ahead()[0..] == pd.Ahead();
    }
    value, repeat := UperGetLength(pd, ebits, lb);
  }

  /** bits_unused after a fragment of n bits: only a partial octet sets it. */
  function UnusedAfter(n: nat, before: int): int {
    if n % 8 != 0 then 8 - n % 8 else before
  }

  /** One fragment: the block grows by the octets of n more bits. */
  method AppendFragment(st: Cell, pd: BitIn, n: nat) returns (rc: Rc)
    requires st.Valid() && pd.Valid()
    modifies st, pd
    ensures st.Valid() && pd.Valid() && pd.End() == old(pd.End())
    ensures n > |old(pd.Ahead())| ==> rc == WMore
    ensures n <= |old(pd.Ahead())| ==>
              && rc == Ok && pd.Ahead() == old(pd.Ahead())[n..]
              && st.View() == BitString(true, old(st.View()).data + Pack(old(pd.Ahead())[..n]),
                                        UnusedAfter(n, old(st.unused)))
  {
    hide Pack, BytesBits;
    var lenBytes := (n + 7) / 8;
    if n % 8 != 0 {
      st.unused := 8 - n % 8;
    }
    st.Reserve(lenBytes);
    var ret, bytes := pd.GetManyBits(n);
    if ret < 0 {
      return WMore;
    }
    st.Append(bytes);
    rc := Ok;
  }

  /** One round of the decoder loops: a length r, then w, that many units appended to the block. */
  method GetRound(st: Cell, pd: BitIn, ebits: int, lb: nat, u: nat, aligned: bool)
    returns (rc: Rc, repeat: bool, lenBits: nat, ghost r: Length, ghost t: seq<bool>, ghost w: seq<bool>)
    requires st.Valid() && pd.Valid() && Unit(u)
    modifies st, pd
    ensures st.Valid() && pd.Valid() && pd.End() == old(pd.End())
    ensures r == LengthAt(old(pd.Ahead()), old(pd.Position()), ebits, lb, aligned)
    ensures rc == WMore || rc == Ok
    ensures rc == WMore ==> r.NoLength? || Scale(r.value, u) > |old(pd.Ahead())| - Gap(aligned, old(pd.Position())) - r.used
    ensures rc == Ok ==>
              && Gap(aligned, old(pd.Position())) <= |old(pd.Ahead())|
              && t == old(pd.Ahead())[Gap(aligned, old(pd.Position()))..]
              && r == GetLength(t, ebits, lb) && r.Length? && r.used + Scale(r.value, u) <= |t|
              && repeat == r.repeat && w == t[r.used..][..Scale(r.value, u)] && lenBits == |w|
              && pd.Ahead() == t[r.used + |w|..]
    ensures rc == Ok ==> st.View() == BitString(true, old(st.View()).data + Pack(w), UnusedAfter(|w|, old(st.unused)))
  {
    hide Pack, BytesBits, Padding, GetLength, LengthAt, Scale, UnusedAfter;
    ghost var s, p := pd.Ahead(), pd.Position();
    r := LengthAt(s, p, ebits, lb, aligned);
    AsLength(s, p, ebits, lb, aligned);
    t, w, lenBits := if r.Length? then s[Gap(aligned, p)..] else [], [], 0;
    var raw;
    raw, repeat := GetRaw(pd, ebits, lb, aligned);
    if raw < 0 {
      rc := WMore;
      return;
    }
    ghost var ahead := pd.Ahead();
    if raw == 0 && st.present {
      NothingRead(ahead, st.View().data, st.unused, u);
      rc := Ok;
      return;
    }
    lenBits := Scale(raw, u);
    rc := AppendFragment(st, pd, lenBits);
    if rc == Ok {
      w := ahead[..lenBits];
      Suffix(t, r.used, lenBits);
    }
  }

  lemma NothingRead(ahead: seq<bool>, data: seq<byte>, unused: int, u: nat)
    ensures Scale(0, u) == 0 && ahead[..0] == [] && ahead[0..] == ahead
    ensures data + Pack([]) == data && UnusedAfter(0, unused) == unused
  {
  }

  /** What the decoder loop reads from s at a position. */
  ghost function ReadFrame(s: seq<bool>, position: nat, ebits: int, lb: nat, u: nat, aligned: bool): Unframed
    requires Unit(u)
  {
    var a := Gap(aligned, position);
    if |s| < a then Starved else Unframe(s[a..], ebits, lb, u)
  }

  /** The state after some rounds: total is what the whole loop reads, done what has been read. */
  ghost predicate Midway(total: Unframed, done: seq<bool>, used: nat, lengths: seq<nat>,
                         s: seq<bool>, position: nat, ebits: int, lb: nat, u: nat, aligned: bool)
    requires Unit(u)
  {
    total == Prepend(done, used, lengths, ReadFrame(s, position, ebits, lb, u, aligned))
  }

  /** A round that runs out of bits: the whole loop starves. */
  lemma MidwayStarved(total: Unframed, done: seq<bool>, used: nat, lengths: seq<nat>,
                      s: seq<bool>, position: nat, ebits: int, lb: nat, u: nat, aligned: bool, r: Length)
    requires Unit(u)
    requires Midway(total, done, used, lengths, s, position, ebits, lb, u, aligned)
    requires r == LengthAt(s, position, ebits, lb, aligned)
    requires r.NoLength? || Scale(r.value, u) > |s| - Gap(aligned, position) - r.used
    ensures total == Starved
  {
    hide GetLength, Padding;
  }

  /** A round that reads w from t and leaves rest. */
  lemma MidwayStep(total: Unframed, done: seq<bool>, used: nat, lengths: seq<nat>,
                   s: seq<bool>, position: nat, ebits: int, lb: nat, u: nat, aligned: bool, r: Length,
                   t: seq<bool>, w: seq<bool>, rest: seq<bool>)
    requires Unit(u) && (aligned ==> u == 8)
    requires Midway(total, done, used, lengths, s, position, ebits, lb, u, aligned)
    requires Gap(aligned, position) <= |s| && t == s[Gap(aligned, position)..]
    requires r == GetLength(t, ebits, lb) && r.Length? && r.used + Scale(r.value, u) <= |t|
    requires w == t[r.used..][..Scale(r.value, u)] && rest == t[r.used + |w|..]
    ensures r.repeat ==> Midway(total, done + w, used + (r.used + |w|), lengths + [r.value],
                                rest, position + Gap(aligned, position) + (r.used + |w|), ebits, lb, u, aligned)
    ensures !r.repeat ==> total == Payload(done + w, used + (r.used + |w|), lengths + [r.value])
  {
    hide GetLength, Prepend, Padding;
    if r.repeat {
      LaterGap(t, ebits, lb, r, position + Gap(aligned, position), aligned);
      PrependTwice(done, used, lengths, w, r.used + |w|, [r.value], Unframe(rest, ebits, lb, u));
      assert rest[0..] == rest;
    }
    PrependCases(done, used, lengths);
  }

  lemma PrependCases(done: seq<bool>, used: nat, lengths: seq<nat>)
    ensures Prepend(done, used, lengths, Starved) == Starved
    ensures forall b: seq<bool>, k: nat, l: seq<nat> :: Prepend(done, used, lengths, Payload(b, k, l))
                                                        == Payload(done + b, used + k, lengths + l)
  {
  }

  /** After one aligned round the position stays on an octet boundary. */
  lemma LaterGap(t: seq<bool>, ebits: int, lb: nat, r: Length, position: nat, aligned: bool)
    requires r == GetLength(t, ebits, lb) && r.Length? && r.repeat
    requires aligned ==> position % 8 == 0
    ensures Gap(aligned, position + r.used + Scale(r.value, 8)) == 0
    ensures !aligned ==> forall n: nat :: Gap(aligned, n) == 0
  {
  }

  /** Ghost bookkeeping of the decoder loop. */
  datatype Progress = Progress(done: seq<bool>, used: nat, lengths: seq<nat>, first: bool, repeat: bool)

  /** The decoder loop's fixed inputs: the bits it started from and how it reads lengths. */
  datatype Source = Source(s: seq<bool>, position: nat, ebits: int, lb: nat, u: nat, aligned: bool) {
    ghost function Total(): Unframed
      requires Unit(u)
    {
      ReadFrame(s, position, ebits, lb, u, aligned)
    }
  }

  /** The octets stored so far, their unused bits and the bits counted. */
  ghost predicate Stored(g: Progress, data: seq<byte>, unused: int, before: int, consumed: nat) {
    && consumed == |g.done| && data == Pack(g.done) && unused == UnusedAfter(|g.done|, before)
    && (g.repeat ==> |g.done| % 8 == 0)
  }

  /** Where the reader is, and what the whole loop will have read. */
  ghost predicate Reading(src: Source, g: Progress, ahead: seq<bool>, position: nat)
    requires Unit(src.u)
  {
    && (g.repeat ==>
          && Midway(src.Total(), g.done, g.used, g.lengths, ahead, position, src.ebits, src.lb, src.u, src.aligned)
          && (!g.first ==> Gap(src.aligned, position) == 0))
    && (!g.repeat ==> src.Total() == Payload(g.done, g.used, g.lengths))
    && (if g.first then g.repeat && ahead == src.s && g.used == 0 && position == src.position
        else Gap(src.aligned, src.position) + g.used <= |src.s|
             && ahead == src.s[Gap(src.aligned, src.position) + g.used..])
  }

  lemma ReadingStart(src: Source, unused: int)
    requires Unit(src.u)
    ensures var g := Progress([], 0, [], true, true);
            Reading(src, g, src.s, src.position) && Stored(g, [], unused, unused, 0)
  {
    MidwayStart(src.s, src.position, src.ebits, src.lb, src.u, src.aligned);
  }

  /** The bookkeeping after a round that read w behind a length r. */
  function Advanced(g: Progress, w: seq<bool>, r: Length): Progress
    requires r.Length?
  {
    Progress(g.done + w, g.used + r.used + |w|, g.lengths + [r.value], false, r.repeat)
  }

  lemma StoredStep(g: Progress, data: seq<byte>, unused: int, before: int, consumed: nat, w: seq<bool>, r: Length)
    requires g.repeat && Stored(g, data, unused, before, consumed)
    requires r.Length? && (r.repeat ==> |w| % 8 == 0)
    ensures Stored(Advanced(g, w, r), data + Pack(w), UnusedAfter(|w|, unused), before, consumed + |w|)
  {
    hide Pack;
    PackConcat(g.done, w);
    assert |g.done + w| == |g.done| + |w|;
    UnusedSum(|g.done|, |w|);
  }

  lemma UnusedSum(a: nat, b: nat)
    requires a % 8 == 0
    ensures forall x :: UnusedAfter(a, x) == x && UnusedAfter(a + b, x) == UnusedAfter(b, x)
    ensures b % 8 == 0 ==> (a + b) % 8 == 0
  {
  }

  /** A round that runs out of bits, seen from the invariant. */
  lemma ReadingStarved(src: Source, g: Progress, ahead: seq<bool>, position: nat, r: Length)
    requires Unit(src.u) && g.repeat && Reading(src, g, ahead, position)
    requires r == LengthAt(ahead, position, src.ebits, src.lb, src.aligned)
    requires r.NoLength? || Scale(r.value, src.u) > |ahead| - Gap(src.aligned, position) - r.used
    ensures src.Total() == Starved
  {
    hide ReadFrame, Midway, LengthAt, Gap, Scale;
    MidwayStarved(src.Total(), g.done, g.used, g.lengths, ahead, position, src.ebits, src.lb, src.u, src.aligned, r);
  }

  /** A round that reads w, seen from the invariant. */
  lemma ReadingStep(src: Source, g: Progress, ahead: seq<bool>, position: nat, r: Length,
                    t: seq<bool>, w: seq<bool>, rest: seq<bool>)
    requires Unit(src.u) && (src.aligned ==> src.u == 8) && g.repeat
    requires Reading(src, g, ahead, position)
    requires Gap(src.aligned, position) <= |ahead| && t == ahead[Gap(src.aligned, position)..]
    requires r == GetLength(t, src.ebits, src.lb) && r.Length? && r.used + Scale(r.value, src.u) <= |t|
    requires w == t[r.used..][..Scale(r.value, src.u)] && rest == t[r.used + |w|..]
    ensures Reading(src, Advanced(g, w, r), rest, position + Gap(src.aligned, position) + (r.used + |w|))
    ensures r.repeat ==> r.used + |w| > 0 && |w| % 8 == 0
  {
    hide ReadFrame, Midway, Gap, Scale, GetLength;
    MidwayStep(src.Total(), g.done, g.used, g.lengths, ahead, position, src.ebits, src.lb, src.u, src.aligned, r,
               t, w, rest);
    AfterGap(src.aligned, position);
    RoundLengths(t, position + Gap(src.aligned, position), src.ebits, src.lb, src.u, src.aligned, r);
    Suffix(ahead, Gap(src.aligned, position), r.used + |w|);
    if !g.first {
      Suffix(src.s, Gap(src.aligned, src.position) + g.used, r.used + |w|);
    }
  }

  lemma ReadingEnd(src: Source, g: Progress, ahead: seq<bool>, position: nat)
    requires Unit(src.u) && !g.repeat && Reading(src, g, ahead, position)
    ensures src.Total() == Payload(g.done, g.used, g.lengths)
    ensures var a := Gap(src.aligned, src.position);
            a + g.used <= |src.s| && ahead == src.s[a + g.used..]
  {
  }

  /** One pass through the decoder loop's body. */
  method Pass(st: Cell, pd: BitIn, ghost src: Source, ghost g: Progress, ghost before: int, sofar: nat,
              ebits: int, lb: nat, u: nat, aligned: bool)
    returns (rc: Rc, repeat: bool, consumed: nat, ghost g': Progress)
    requires st.Valid() && pd.Valid() && Unit(u) && (aligned ==> u == 8)
    requires src.ebits == ebits && src.lb == lb && src.u == u && src.aligned == aligned && g.repeat
    requires Reading(src, g, pd.Ahead(), pd.Position()) && Stored(g, st.View().data, st.unused, before, sofar)
    modifies st, pd
    ensures st.Valid() && pd.Valid() && pd.End() == old(pd.End())
    ensures rc == WMore || rc == Ok
    ensures rc == WMore ==> src.Total() == Starved
    ensures rc == Ok ==> st.present && g'.repeat == repeat && |pd.Ahead()| <= |old(pd.Ahead())| && (repeat ==> |pd.Ahead()| < |old(pd.Ahead())|)
    ensures rc == Ok ==> Reading(src, g', pd.Ahead(), pd.Position())
    ensures rc == Ok ==> Stored(g', st.View().data, st.unused, before, consumed)
  {
    hide Pack, BytesBits, ReadFrame, LengthAt, Gap, Scale, Reading, Stored, UnusedAfter;
    ghost var data, unused, ahead, position := st.View().data, st.unused, pd.Ahead(), pd.Position();
    ghost var r, t, w;
    var lenBits;
    rc, repeat, lenBits, r, t, w := GetRound(st, pd, ebits, lb, u, aligned);
    consumed, g' := sofar + lenBits, g;
    if rc != Ok {
      ReadingStarved(src, g, ahead, position, r);
      return;
    }
    assert pd.Position() == position + Gap(aligned, position) + (r.used + |w|);
    ReadingStep(src, g, ahead, position, r, t, w, pd.Ahead());
    StoredStep(g, data, unused, before, sofar, w, r);
    g' := Advanced(g, w, r);
  }

  /**
   * The decoder loop shared by BIT_STRING_decode_uper, ANY_decode_uper and
   * ANY_decode_aper. consumed counts payload bits, as the ANY decoders report it.
   */
  method GetFrame(st: Cell, pd: BitIn, ebits: int, lb: nat, u: nat, aligned: bool)
    returns (rc: Rc, consumed: nat)
    requires st.Valid() && pd.Valid() && Unit(u) && (aligned ==> u == 8)
    modifies st, pd
    ensures st.Valid() && pd.Valid()
    ensures var s, p := old(pd.Ahead()), old(pd.Position());
            match ReadFrame(s, p, ebits, lb, u, aligned)
            case Starved => rc == WMore
            case Payload(bits, used, _) =>
              && rc == Ok && consumed == |bits|
              && Gap(aligned, p) + used <= |s| && pd.Ahead() == s[Gap(aligned, p) + used..]
              && st.View() == BitString(true, Pack(bits), UnusedAfter(|bits|, old(st.unused)))
              && st.block[st.size] == 0
  {
    hide Pack, BytesBits, ReadFrame, LengthAt, Gap, Scale, Reading, Stored, UnusedAfter;
    ghost var src := Source(pd.Ahead(), pd.Position(), ebits, lb, u, aligned);
    ghost var g, before := Progress([], 0, [], true, true), st.unused;
    ReadingStart(src, before);
    st.size, consumed, rc := 0, 0, Ok;
    var repeat := true;
    while repeat
      invariant st.Valid() && pd.Valid() && pd.End() == old(pd.End())
      invariant g.repeat == repeat && (!repeat ==> st.present) && rc == Ok
      invariant Reading(src, g, pd.Ahead(), pd.Position())
      invariant Stored(g, st.View().data, st.unused, before, consumed)
      decreases |pd.Ahead()|, repeat
    {
      rc, repeat, consumed, g := Pass(st, pd, src, g, before, consumed, ebits, lb, u, aligned);
      if rc != Ok {
        return;
      }
    }
    ReadingEnd(src, g, pd.Ahead(), pd.Position());
    StoredEnd(g, st.View().data, st.unused, before, consumed);
    st.Terminate();
  }

  lemma StoredEnd(g: Progress, data: seq<byte>, unused: int, before: int, consumed: nat)
    requires Stored(g, data, unused, before, consumed)
    ensures consumed == |g.done| && data == Pack(g.done) && unused == UnusedAfter(|g.done|, before)
  {
  }

  lemma MidwayStart(s: seq<bool>, position: nat, ebits: int, lb: nat, u: nat, aligned: bool)
    requires Unit(u)
    ensures Midway(ReadFrame(s, position, ebits, lb, u, aligned), [], 0, [], s, position, ebits, lb, u, aligned)
    ensures Pack([]) == [] && UnusedAfter(0, 0) == 0
  {
    var r := ReadFrame(s, position, ebits, lb, u, aligned);
    if r.Payload? {
      assert [] + r.bits == r.bits && [] + r.lengths == r.lengths;
    }
  }

  lemma Suffix(s: seq<bool>, i: nat, j: nat)
    requires i + j <= |s|
    ensures s[i..][j..] == s[i + j..]
  {
  }

  lemma AsLength(s: seq<bool>, position: nat, ebits: int, lb: nat, aligned: bool)
    ensures var r := LengthAt(s, position, ebits, lb, aligned);
            r.Length? ==> Gap(aligned, position) <= |s| && r == GetLength(s[Gap(aligned, position)..], ebits, lb)
  {
  }

  /** A round that asks to repeat reads whole octets and makes progress. */
  lemma RoundLengths(t: seq<bool>, position: nat, ebits: int, lb: nat, u: nat, aligned: bool, r: Length)
    requires Unit(u) && r == GetLength(t, ebits, lb) && r.Length?
    requires aligned ==> u == 8 && position % 8 == 0
    ensures r.repeat ==> r.used > 0 && Scale(r.value, u) % 8 == 0
    ensures r.repeat ==> Gap(aligned, position + (r.used + Scale(r.value, u))) == 0
  {
    hide GetLength;
    if r.repeat {
      LaterGap(t, ebits, lb, r, position, aligned);
    }
  }
}
