/** base64.cpp of the E2 termination: RFC 4648 base 64 over character codes. */
module Base64 {
  import opened Bits

  const PAD: byte := 61         // '='
  const FOREIGN: byte := 0x80   // inverse table entry of characters that are skipped

  /** base64_table */
  function Symbol(v: nat): (c: byte)
    requires v < 64
    ensures c != PAD && Inverse(c) == v
  {
    if v < 26 then 65 + v          // A-Z
    else if v < 52 then 97 + (v - 26)   // a-z
    else if v < 62 then 48 + (v - 52)   // 0-9
    else if v == 62 then 43 else 47     // + /
  }

  /** inv_table */
  function Inverse(c: byte): (v: byte)
    ensures v < 64 || v == FOREIGN
  {
    if 65 <= c <= 90 then c - 65
    else if 97 <= c <= 122 then c - 97 + 26
    else if 48 <= c <= 57 then c - 48 + 52
    else if c == 43 then 62
    else if c == 47 then 63
    else if c == PAD then 0
    else FOREIGN
  }

  /** The alphabet: the capital letters, the small ones and the digits in order, plus and slash. */
  lemma Alphabet(v: nat)
    requires v < 64
    ensures v < 26 ==> 'A' as int <= Symbol(v) <= 'Z' as int && Symbol(v) - 'A' as int == v
    ensures 26 <= v < 52 ==> 'a' as int <= Symbol(v) <= 'z' as int && Symbol(v) - 'a' as int == v - 26
    ensures 52 <= v < 62 ==> '0' as int <= Symbol(v) <= '9' as int && Symbol(v) - '0' as int == v - 52
    ensures v == 62 ==> Symbol(v) == '+' as int
    ensures v == 63 ==> Symbol(v) == '/' as int
    ensures PAD == '=' as int
  {
  }

  lemma SymbolOfInverse(c: byte)
    requires Inverse(c) != FOREIGN && c != PAD
    ensures Symbol(Inverse(c)) == c
  {
  }

  /** What the inverse table says of a character: its place in the alphabet, 0 for padding, 0x80 for any other. */
  lemma InverseExactly(c: byte)
    ensures Inverse(c) == 0x80 <==>
              !('A' as int <= c <= 'Z' as int || 'a' as int <= c <= 'z' as int || '0' as int <= c <= '9' as int
                || c == '+' as int || c == '/' as int || c == '=' as int)
    ensures c != '=' as int ==> forall v :: 0 <= v < 64 ==> (Inverse(c) == v <==> c == Symbol(v))
    ensures c == '=' as int ==> Inverse(c) == 0
  {
  }

  /** The loop that inverts base64_table. */
  method InverseTable() returns (table: array<byte>)
    ensures fresh(table) && table.Length == 256
    ensures forall c: byte :: table[c] == Inverse(c)
  {
    table := new byte[256](_ => FOREIGN);
    for i := 0 to 64
      invariant forall j :: 0 <= j < i ==> table[Symbol(j)] == j
      invariant forall c: byte :: table[c] == FOREIGN || (c != PAD && table[c] == Inverse(c))
    {
      table[Symbol(i)] := i;
    }
    table[PAD] := 0;
    forall c: byte
      ensures table[c] == Inverse(c)
    {
      if Inverse(c) != FOREIGN && c != PAD { SymbolOfInverse(c); }
    }
  }

  // ----- quanta -----

  /** Three octets as four symbols; the C code joins the parts with |. */
  function Quantum(a: byte, b: byte, c: byte): (q: seq<byte>)
    ensures |q| == 4
  {
    var v := Values(a, b, c);
    [Symbol(v.0), Symbol(v.1), Symbol(v.2), Symbol(v.3)]
  }

  /** The values of three octets. */
  function Values(a: byte, b: byte, c: byte): (v: (nat, nat, nat, nat))
    ensures v.0 < 64 && v.1 < 64 && v.2 < 64 && v.3 < 64
  {
    (a / 4, a % 4 * 16 + b / 16, b % 16 * 4 + c / 64, c % 64)
  }

  /** v << shift in an unsigned char, k being the power of two. */
  function Shifted(v: nat, k: nat): byte {
    v * k % 256
  }

  /** Octets of four table values. */
  function Octets(v0: nat, v1: nat, v2: nat, v3: nat): (d: seq<byte>)
    requires v0 < 64 && v1 < 64 && v2 < 64 && v3 < 64
    ensures |d| == 3
  {
    ShiftRoom(v0, v1, v2, v3);
    [Shifted(v0, 4) + v1 / 16, Shifted(v1, 16) + v2 / 4, Shifted(v2, 64) + v3]
  }

  lemma ShiftRoom(v0: nat, v1: nat, v2: nat, v3: nat)
    requires v0 < 64 && v1 < 64 && v2 < 64 && v3 < 64
    ensures Shifted(v0, 4) == v0 * 4
    ensures Shifted(v1, 16) == v1 % 16 * 16
    ensures Shifted(v2, 64) == v2 % 4 * 64
  {
    hide Shifted;
    ShiftOut(0, v0, 64, 4);
    ShiftOut(v1 / 16, v1 % 16, 16, 16);
    ShiftOut(v2 / 4, v2 % 4, 4, 64);
  }

  lemma ShiftOut(h: nat, l: nat, m: nat, k: nat)
    requires (m, k) in {(64, 4), (16, 16), (4, 64)} && l < m
    ensures Shifted(h * m + l, k) == l * k
  {
    assert (h * m + l) * k == 256 * h + l * k;
  }

  lemma Split(h: nat, l: nat, k: nat)
    requires k in {4, 16, 64} && l < k
    ensures (h * k + l) / k == h && (h * k + l) % k == l
  {
  }

  lemma OctetsOfQuantum(a: byte, b: byte, c: byte)
    ensures var v := Values(a, b, c); Octets(v.0, v.1, v.2, v.3) == [a, b, c]
  {
    hide Shifted;
    var v := Values(a, b, c);
    ShiftRoom(v.0, v.1, v.2, v.3);
    Split(a % 4, b / 16, 16);
    Split(b % 16, c / 64, 4);
  }

  lemma QuantumOfOctets(v0: nat, v1: nat, v2: nat, v3: nat)
    requires v0 < 64 && v1 < 64 && v2 < 64 && v3 < 64
    ensures var d := Octets(v0, v1, v2, v3); Values(d[0], d[1], d[2]) == (v0, v1, v2, v3)
  {
    hide Shifted;
    ShiftRoom(v0, v1, v2, v3);
    Split(v0, v1 / 16, 4);
    Split(v1 % 16, v2 / 4, 16);
    Split(v2 % 4, v3, 64);
  }

  // ----- encoding -----

  function Encoded(x: seq<byte>): (t: seq<byte>)
    ensures |t| == 4 * ((|x| + 2) / 3)
  {
    if |x| == 0 then []
    else if |x| <= 2 then Tail(x)
    else
      assert (|x| - 3 + 2) / 3 + 1 == (|x| + 2) / 3;
      Quantum(x[0], x[1], x[2]) + Encoded(x[3..])
  }

  /** The end of a text: one or two octets. */
  function Tail(x: seq<byte>): seq<byte>
    requires 1 <= |x| <= 2
  {
    if |x| == 1 then [Symbol(x[0] / 4), Symbol(x[0] % 4 * 16), PAD, PAD]
    else [Symbol(x[0] / 4), Symbol(x[0] % 4 * 16 + x[1] / 16), Symbol(x[1] % 16 * 4), PAD]
  }

  lemma Wide(b: byte)
    ensures b / 4 < 64 && b % 4 * 16 + 15 < 64 && b % 16 * 4 + 3 < 64 && b % 64 < 64 && b / 16 < 16 && b / 64 < 4
  {
  }

  lemma QuantumParts(a: byte, b: byte, c: byte)
    ensures Quantum(a, b, c) == [Symbol(a / 4), Symbol(a % 4 * 16 + b / 16), Symbol(b % 16 * 4 + c / 64), Symbol(c % 64)]
  {
  }

  /** Nothing changed from pos on. */
  predicate SameFrom(s: seq<byte>, t: seq<byte>, pos: nat) {
    |s| == |t| && pos <= |s| && s[pos..] == t[pos..]
  }

  lemma SameLater(s: seq<byte>, t: seq<byte>, u: seq<byte>, i: nat, j: nat)
    requires SameFrom(t, u, i) && SameFrom(s, t, j) && i <= j
    ensures SameFrom(s, u, j)
  {
    assert t[j..] == t[i..][j - i..] && u[j..] == u[i..][j - i..];
  }

  method PutQuantum(src: array<byte>, in_: nat, dst: array<byte>, pos: nat)
    requires in_ + 3 <= src.Length && pos + 4 <= dst.Length && src != dst
    modifies dst
    ensures dst[..pos + 4] == old(dst[..pos]) + Quantum(src[in_], src[in_ + 1], src[in_ + 2])
    ensures SameFrom(dst[..], old(dst[..]), pos + 4)
  {
    hide Symbol, Quantum;
    QuantumParts(src[in_], src[in_ + 1], src[in_ + 2]);
    Wide(src[in_]);
    Wide(src[in_ + 1]);
    Wide(src[in_ + 2]);
    dst[pos] := Symbol(src[in_] / 4);
    dst[pos + 1] := Symbol(src[in_] % 4 * 16 + src[in_ + 1] / 16);
    dst[pos + 2] := Symbol(src[in_ + 1] % 16 * 4 + src[in_ + 2] / 64);
    dst[pos + 3] := Symbol(src[in_ + 2] % 64);
  }

  method PutTail(src: array<byte>, in_: nat, end: nat, dst: array<byte>, p: nat) returns (pos: nat)
    requires in_ < end <= src.Length && end - in_ <= 2 && p + 4 <= dst.Length && src != dst
    modifies dst
    ensures pos == p + 4 && dst[..pos] == old(dst[..p]) + Tail(src[in_..end])
    ensures SameFrom(dst[..], old(dst[..]), pos)
  {
    hide Symbol;
    pos := p;
    Wide(src[in_]);
    dst[pos] := Symbol(src[in_] / 4);
    pos := pos + 1;
    if end - in_ == 1 {
      dst[pos] := Symbol(src[in_] % 4 * 16);
      dst[pos + 1] := PAD;
      pos := pos + 2;
    } else {
      Wide(src[in_ + 1]);
      dst[pos] := Symbol(src[in_] % 4 * 16 + src[in_ + 1] / 16);
      dst[pos + 1] := Symbol(src[in_ + 1] % 16 * 4);
      pos := pos + 2;
    }
    dst[pos] := PAD;
    pos := pos + 1;
  }

  /**
   * base64::encode. The caller's buffer must hold the text and its final zero,
   * which is more than the guards ask for; srcLen * 4 must not overflow an int.
   */
  method Encode(src: array?<byte>, srcLen: int, dst: array?<byte>, dstLen: int) returns (rc: int, outLen: int)
    requires src != null ==> srcLen <= src.Length
    requires srcLen < 0x2000_0000 && (dst == null || dst != src)
    requires dst != null && src != null && 0 < srcLen && srcLen * 4 / 3 <= dstLen ==> 4 * ((srcLen + 2) / 3) + 1 <= dst.Length
    modifies dst
    ensures rc == (if dstLen > 0 && srcLen > 0 && dstLen >= srcLen * 4 / 3 && dst != null && src != null then 0 else -1)
    ensures rc == 0 ==> outLen == 4 * ((srcLen + 2) / 3)
    ensures rc == 0 ==> dst[..outLen] == Encoded(src[..srcLen]) && dst[outLen] == 0
    ensures rc == 0 ==> SameFrom(dst[..], old(dst[..]), outLen + 1)
    ensures rc != 0 ==> outLen == dstLen && (dst != null ==> dst[..] == old(dst[..]))
  {
    outLen := dstLen;
    if dstLen <= 0 || srcLen <= 0 { return -1, outLen; }
    if dstLen < srcLen * 4 / 3 { return -1, outLen; }
    if dst == null { return -1, outLen; }
    if src == null { return -1, outLen; }
    outLen := EncodeText(src, srcLen, dst);
    rc := 0;
  }

  method EncodeText(src: array<byte>, srcLen: nat, dst: array<byte>) returns (outLen: nat)
    requires srcLen <= src.Length && src != dst && 4 * ((srcLen + 2) / 3) + 1 <= dst.Length
    modifies dst
    ensures outLen == 4 * ((srcLen + 2) / 3)
    ensures dst[..outLen] == Encoded(src[..srcLen]) && dst[outLen] == 0
    ensures SameFrom(dst[..], old(dst[..]), outLen + 1)
  {
    hide Encoded, Quantum, Tail, SameFrom;
    var in_: nat, pos: nat, end: nat := 0, 0, srcLen;
    ghost var x, start := src[..srcLen], dst[..];
    assert x[0..] == x && dst[..0] == [];
    SameAll(start);
    while end - in_ >= 3
      invariant in_ <= end && in_ % 3 == 0 && pos == 4 * (in_ / 3)
      invariant dst[..pos] + Encoded(x[in_..]) == Encoded(x)
      invariant SameFrom(dst[..], start, pos)
    {
      OneQuantum(x, in_);
      Assoc(dst[..pos], Quantum(x[in_], x[in_ + 1], x[in_ + 2]), Encoded(x[in_ + 3..]));
      ghost var before := dst[..];
      PutQuantum(src, in_, dst, pos);
      SameLater(dst[..], before, start, pos, pos + 4);
      pos := pos + 4;
      in_ := in_ + 3;
    }
    LastQuantum(x, in_);
    if end - in_ != 0 {
      assert x[in_..] == src[in_..end];
      ghost var before := dst[..];
      pos := PutTail(src, in_, end, dst, pos);
      SameLater(dst[..], before, start, pos - 4, pos);
    }
    ghost var before := dst[..];
    dst[pos] := 0;
    outLen := pos;
    Terminated(before, dst[..], pos);
    SameLater(dst[..], before, start, pos, pos + 1);
  }

  lemma SameAll(s: seq<byte>)
    ensures SameFrom(s, s, 0)
  {
  }

  lemma Terminated(s: seq<byte>, t: seq<byte>, pos: nat)
    requires pos < |s| && t == s[pos := 0]
    ensures t[..pos] == s[..pos] && SameFrom(t, s, pos + 1)
  {
  }

  lemma OneQuantum(x: seq<byte>, i: nat)
    requires i + 3 <= |x|
    ensures Encoded(x[i..]) == Quantum(x[i], x[i + 1], x[i + 2]) + Encoded(x[i + 3..])
  {
    assert x[i..][3..] == x[i + 3..];
  }

  lemma LastQuantum(x: seq<byte>, i: nat)
    requires i <= |x| < i + 3
    ensures Encoded(x[i..]) == if |x| == i then [] else Tail(x[i..])
  {
  }

  // ----- decoding -----

  predicate Kept(c: byte) {
    Inverse(c) != FOREIGN
  }

  /** The alphabet and padding characters among the first n. */
  function FilteredUpTo(t: seq<byte>, n: nat): (f: seq<byte>)
    requires n <= |t|
    ensures |f| <= n && forall i :: 0 <= i < |f| ==> Kept(f[i])
  {
    if n == 0 then [] else FilteredUpTo(t, n - 1) + if Kept(t[n - 1]) then [t[n - 1]] else []
  }

  function Filtered(t: seq<byte>): (f: seq<byte>)
    ensures |f| <= |t| && forall i :: 0 <= i < |f| ==> Kept(f[i])
  {
    FilteredUpTo(t, |t|)
  }

  function Pads(q: seq<byte>, n: nat): (k: nat)
    requires n <= |q|
    ensures k <= n
  {
    if n == 0 then 0 else Pads(q, n - 1) + if q[n - 1] == PAD then 1 else 0
  }

  predicate AllKept(f: seq<byte>) {
    forall i :: 0 <= i < |f| ==> Kept(f[i])
  }

  /** The octets of a quantum of characters, padding read as zero. */
  function QuantumOctets(q: seq<byte>): (d: seq<byte>)
    requires |q| == 4 && AllKept(q)
    ensures |d| == 3
  {
    Octets(Inverse(q[0]), Inverse(q[1]), Inverse(q[2]), Inverse(q[3]))
  }

  function Prepend(d: seq<byte>, r: Option<seq<byte>>): Option<seq<byte>> {
    match r
    case Some(e) => Some(d + e)
    case None => None
  }

  /** Quanta up to the first padded one, which drops an octet for each pad character. */
  function Quanta(f: seq<byte>): Option<seq<byte>>
    requires AllKept(f)
  {
    if |f| < 4 then Some([])
    else
      var d, p := QuantumOctets(f[..4]), Pads(f[..4], 4);
      if p == 0 then Prepend(d, Quanta(f[4..]))
      else if p <= 2 then Some(d[..3 - p])
      else None
  }

  /** What base64::decode makes of a text, given room. */
  function Decoded(t: seq<byte>): Option<seq<byte>> {
    var f := Filtered(t);
    if f == [] || |f| % 4 != 0 then None else Quanta(f)
  }

  lemma {:induction false} FilteredPrefix(t: seq<byte>, i: nat, n: nat)
    requires i <= n <= |t|
    ensures FilteredUpTo(t, i) <= FilteredUpTo(t, n)
    decreases n
  {
    if i < n { FilteredPrefix(t, i, n - 1); }
  }

  /** The counting loop. */
  method CountKept(table: array<byte>, src: array<byte>, srcLen: nat) returns (count: nat)
    requires table.Length == 256 && forall c: byte :: table[c] == Inverse(c)
    requires srcLen <= src.Length
    ensures count == |Filtered(src[..srcLen])|
  {
    hide Inverse;
    ghost var t := src[..srcLen];
    count := 0;
    for i := 0 to srcLen
      invariant count == |FilteredUpTo(t, i)|
    {
      assert src[i] == t[i];
      if table[src[i]] != FOREIGN {
        count := count + 1;
      }
    }
  }

  /** Three octets from a full block. */
  method PutOctets(block: array<byte>, dst: array<byte>, pos: nat)
    requires block.Length == 4 && forall j :: 0 <= j < 4 ==> block[j] < 64
    requires pos + 3 <= dst.Length && block != dst
    modifies dst
    ensures dst[..pos + 3] == old(dst[..pos]) + Octets(block[0], block[1], block[2], block[3])
    ensures SameFrom(dst[..], old(dst[..]), pos + 3)
  {
    hide Shifted;
    ShiftRoom(block[0], block[1], block[2], block[3]);
    dst[pos] := Shifted(block[0], 4) + block[1] / 16;
    dst[pos + 1] := Shifted(block[1], 16) + block[2] / 4;
    dst[pos + 2] := Shifted(block[2], 64) + block[3];
  }

  /** Characters in the quanta that gave these octets. */
  function From(done: seq<byte>): nat {
    4 * (|done| / 3)
  }

  /** The block holds the table values of the characters q, of which pad are padding. */
  predicate Holds(q: seq<byte>, block: seq<byte>, pad: nat) {
    && |q| <= 4 == |block| && pad == Pads(q, |q|)
    && forall j :: 0 <= j < |q| ==> block[j] == Inverse(q[j])
  }

  /** Where the decoding loop stands: octets done, characters q in the block. */
  ghost predicate Standing(f: seq<byte>, seen: seq<byte>, done: seq<byte>, q: seq<byte>) {
    && AllKept(f) && |done| % 3 == 0 && |q| < 4
    && From(done) + |q| <= |f| && seen == f[..From(done)] + q
    && Prepend(done, Quanta(f[From(done)..])) == Quanta(f)
  }

  lemma StandingStart(f: seq<byte>)
    requires AllKept(f)
    ensures Standing(f, [], [], [])
  {
    hide Quanta;
    assert f[0..] == f;
    assert Quanta(f).Some? ==> [] + Quanta(f).value == Quanta(f).value;
  }

  lemma {:induction false} PadsPrefix(q: seq<byte>, c: byte, n: nat)
    requires n <= |q|
    ensures Pads(q + [c], n) == Pads(q, n)
  {
    if n > 0 { PadsPrefix(q, c, n - 1); }
  }

  lemma HoldsMore(q: seq<byte>, block: seq<byte>, pad: nat, c: byte)
    requires Holds(q, block, pad) && |q| < 4
    ensures Holds(q + [c], block[|q| := Inverse(c)], pad + if c == PAD then 1 else 0)
  {
    PadsPrefix(q, c, |q|);
  }

  /** A character that does not fill the block. */
  lemma StandingMore(f: seq<byte>, seen: seq<byte>, done: seq<byte>, q: seq<byte>, c: byte)
    requires Standing(f, seen, done, q) && seen + [c] <= f && |q| < 3
    ensures Standing(f, seen + [c], done, q + [c])
  {
    hide Quanta;
    Assoc(f[..From(done)], q, [c]);
  }

  lemma PrependTwice(a: seq<byte>, b: seq<byte>, r: Option<seq<byte>>)
    ensures Prepend(a, Prepend(b, r)) == Prepend(a + b, r)
  {
    if r.Some? { Assoc(a, b, r.value); }
  }

  /** The value of a text from a quantum on. */
  lemma QuantaStep(f: seq<byte>, from: nat, q: seq<byte>)
    requires AllKept(f) && from + 4 <= |f| && q == f[from..from + 4]
    ensures Quanta(f[from..]) == (
              if Pads(q, 4) == 0 then Prepend(QuantumOctets(q), Quanta(f[from + 4..]))
              else if Pads(q, 4) <= 2 then Some(QuantumOctets(q)[..3 - Pads(q, 4)])
              else None)
  {
    hide QuantumOctets, Pads;
    assert f[from..][..4] == q && f[from..][4..] == f[from + 4..];
  }

  lemma FullBlock(f: seq<byte>, seen: seq<byte>, from: nat, q: seq<byte>, c: byte)
    requires from <= |f| && seen == f[..from] + q && seen + [c] <= f && |q| == 3 && AllKept(f)
    ensures from + 4 <= |f| && f[from..from + 4] == q + [c] && seen + [c] == f[..from + 4] && AllKept(q + [c])
  {
    var w := q + [c];
    Assoc(f[..from], q, [c]);
    assert f[from..from + 4] == f[..from + 4][from..] == w;
    assert forall i :: 0 <= i < 4 ==> w[i] == f[from + i];
  }

  /** The character that fills the block. */
  lemma StandingFull(f: seq<byte>, seen: seq<byte>, done: seq<byte>, q: seq<byte>, c: byte)
    requires Standing(f, seen, done, q) && seen + [c] <= f && |q| == 3
    ensures var w := q + [c];
            && AllKept(w) && From(done) + 4 <= |f|
            && (Pads(w, 4) == 0 ==> Standing(f, seen + [c], done + QuantumOctets(w), []))
            && (1 <= Pads(w, 4) <= 2 ==>
                  Quanta(f) == Some((done + QuantumOctets(w))[..|done| + 3 - Pads(w, 4)]))
            && (Pads(w, 4) > 2 ==> Quanta(f) == None)
  {
    hide Quanta, QuantumOctets, Pads;
    var w, from := q + [c], From(done);
    FullBlock(f, seen, from, q, c);
    QuantaStep(f, from, w);
    var d := QuantumOctets(w);
    PrependTwice(done, d, Quanta(f[from + 4..]));
    assert From(done + d) == from + 4;
    if 1 <= Pads(w, 4) <= 2 {
      assert (done + d)[..|done| + 3 - Pads(w, 4)] == done + d[..3 - Pads(w, 4)];
    }
  }

  lemma StandingEnd(f: seq<byte>, done: seq<byte>, q: seq<byte>)
    requires Standing(f, f, done, q) && |f| % 4 == 0
    ensures Quanta(f) == Some(done)
  {
    assert |f| == From(done) + |q|;
    assert done + [] == done;
  }

  lemma FilteredStep(t: seq<byte>, i: nat)
    requires i < |t|
    ensures FilteredUpTo(t, i + 1) == FilteredUpTo(t, i) + if Kept(t[i]) then [t[i]] else []
    ensures FilteredUpTo(t, i + 1) <= Filtered(t) && FilteredUpTo(t, 0) == []
  {
    FilteredPrefix(t, i + 1, |t|);
  }

  lemma BlockValues(q: seq<byte>, block: seq<byte>, pad: nat)
    requires Holds(q, block, pad) && |q| == 4 && AllKept(q)
    ensures forall j :: 0 <= j < 4 ==> block[j] < 64
    ensures QuantumOctets(q) == Octets(block[0], block[1], block[2], block[3]) && pad == Pads(q, 4)
  {
    hide Octets, Inverse;
  }

  /** One pass of the decoding loop is over: go on, or leave with a result. */
  datatype Turn = Continue(pos: nat, count: nat, pad: nat) | Leave(rc: int, pos: nat)

  /** One kept character. */
  method DecodeChar(block: array<byte>, dst: array<byte>, pos: nat, count: nat, pad: nat, c: byte, tmp: byte,
                    ghost f: seq<byte>, ghost seen: seq<byte>, ghost q: seq<byte>)
    returns (turn: Turn, ghost r: seq<byte>)
    requires block.Length == 4 && block != dst && pos <= dst.Length && 3 * (|f| / 4) <= dst.Length
    requires Standing(f, seen, dst[..pos], q) && Holds(q, block[..], pad) && count == |q| < 4
    requires Kept(c) && tmp == Inverse(c) && seen + [c] <= f
    modifies block, dst
    ensures turn.Continue? ==> turn.pos <= dst.Length && turn.count == |r| < 4
                               && Standing(f, seen + [c], dst[..turn.pos], r) && Holds(r, block[..], turn.pad)
    ensures turn.Leave? ==> (if turn.rc == 0 then turn.pos <= dst.Length && Quanta(f) == Some(dst[..turn.pos])
                             else turn.rc == -1 && Quanta(f) == None)
    ensures SameFrom(dst[..], old(dst[..]), 3 * (|f| / 4))
  {
    hide Inverse, Quanta, Standing, QuantumOctets, Octets, Pads;
    ghost var done := dst[..pos];
    ghost var w := q + [c];
    HoldsMore(q, block[..], pad, c);
    block[count] := tmp;
    var padNow := if c == PAD then pad + 1 else pad;
    assert block[..] == old(block[..])[|q| := Inverse(c)];
    if count + 1 < 4 {
      StandingMore(f, seen, done, q, c);
      assert dst[..pos] == done;
      return Continue(pos, count + 1, padNow), w;
    }
    StandingFull(f, seen, done, q, c);
    BlockValues(w, block[..], padNow);
    StandingRoom(f, seen, done, q);
    PutOctets(block, dst, pos);
    assert dst[..pos + 2] == dst[..pos + 3][..pos + 2] && dst[..pos + 1] == dst[..pos + 3][..pos + 1];
    r := [];
    if padNow != 0 {
      if padNow == 1 {
        turn := Leave(0, pos + 2);
      } else if padNow == 2 {
        turn := Leave(0, pos + 1);
      } else {
        turn := Leave(-1, pos + 3);
      }
    } else {
      turn := Continue(pos + 3, 0, 0);
      EmptyBlock(block[..]);
    }
  }

  lemma EmptyBlock(block: seq<byte>)
    requires |block| == 4
    ensures Holds([], block, 0)
  {
  }

  lemma StandingRoom(f: seq<byte>, seen: seq<byte>, done: seq<byte>, q: seq<byte>)
    requires Standing(f, seen, done, q) && From(done) + 4 <= |f|
    ensures |done| + 3 <= 3 * (|f| / 4)
  {
    hide Quanta;
    Room(|done| / 3, |f|);
  }

  lemma Room(k: nat, m: nat)
    requires 4 * k + 4 <= m
    ensures k + 1 <= m / 4
  {
  }

  /** The decoding loop, into a buffer with room for every whole quantum. */
  method DecodeLoop(table: array<byte>, src: array<byte>, srcLen: nat, dst: array<byte>) returns (rc: int, n: nat)
    requires table.Length == 256 && forall c: byte :: table[c] == Inverse(c)
    requires srcLen <= src.Length && src != dst && table != dst
    requires var f := Filtered(src[..srcLen]); |f| % 4 == 0 && 3 * (|f| / 4) <= dst.Length
    modifies dst
    ensures rc == if Quanta(Filtered(src[..srcLen])).Some? then 0 else -1
    ensures rc == 0 ==> n <= dst.Length && Quanta(Filtered(src[..srcLen])) == Some(dst[..n])
    ensures SameFrom(dst[..], old(dst[..]), 3 * (|Filtered(src[..srcLen])| / 4))
  {
    hide Inverse, Quanta, Standing, Holds, FilteredUpTo, Filtered, SameFrom;
    ghost var t, start := src[..srcLen], dst[..];
    ghost var f := Filtered(t);
    ghost var q: seq<byte> := [];
    var block := new byte[4](_ => 0);
    var pos: nat, pad: nat, count: nat := 0, 0, 0;
    FilteredEnds(t);
    StandingStart(f);
    EmptyBlock(block[..]);
    assert dst[..pos] == [];
    SameAll(start);
    SameFurther(start, start, 3 * (|f| / 4));
    for i := 0 to srcLen
      invariant pos <= dst.Length && t == src[..srcLen] && count == |q| < 4
      invariant forall c: byte :: table[c] == Inverse(c)
      invariant Standing(f, FilteredUpTo(t, i), dst[..pos], q) && Holds(q, block[..], pad)
      invariant SameFrom(dst[..], start, 3 * (|f| / 4))
    {
      var c := src[i];
      assert c == t[i];
      FilteredStep(t, i);
      var tmp := table[c];
      if tmp == FOREIGN {
        assert FilteredUpTo(t, i) + [] == FilteredUpTo(t, i);
        continue;
      }
      ghost var before := dst[..];
      var turn: Turn;
      turn, q := DecodeChar(block, dst, pos, count, pad, c, tmp, f, FilteredUpTo(t, i), q);
      SameLater(dst[..], before, start, 3 * (|f| / 4), 3 * (|f| / 4));
      match turn {
        case Leave(r, p) => return r, p;
        case Continue(p, k, d) => pos, count, pad := p, k, d;
      }
    }
    StandingEnd(f, dst[..pos], q);
    rc, n := 0, pos;
  }

  lemma FilteredEnds(t: seq<byte>)
    ensures FilteredUpTo(t, 0) == [] && FilteredUpTo(t, |t|) == Filtered(t) && AllKept(Filtered(t))
  {
  }

  lemma SameFurther(s: seq<byte>, t: seq<byte>, i: nat)
    requires SameFrom(s, t, 0) && i <= |s|
    ensures SameFrom(s, t, i)
  {
    assert s[0..] == s && t[0..] == t;
  }

  /** Division by four, towards zero as in C. */
  function Quarter(n: int): int {
    if n >= 0 then n / 4 else -(-n / 4)
  }

  /** The entry guards of base64::decode. */
  predicate DecodeAccepts(srcLen: int, dst: array?<byte>, dstLen: int) {
    dstLen != 0 && dstLen >= Quarter(srcLen) * 3 && dst != null
  }

  /** The characters a length stands for; a negative one stands for none. */
  function Chars(src: seq<byte>, srcLen: int): seq<byte>
    requires srcLen <= |src|
  {
    if srcLen < 0 then [] else src[..srcLen]
  }

  /**
   * base64::decode. The guards alone keep every write below dstLen. dstLen is
   * passed by value, so callers do not learn n.
   */
  method Decode(src: array<byte>, srcLen: int, dst: array?<byte>, dstLen: int) returns (rc: int, ghost n: nat)
    requires srcLen <= src.Length && src != dst && (dst != null ==> dstLen <= dst.Length)
    modifies dst
    ensures rc == if DecodeAccepts(srcLen, dst, dstLen) && Decoded(Chars(src[..], srcLen)).Some? then 0 else -1
    ensures DecodeAccepts(srcLen, dst, dstLen) <==>
              dst != null && dstLen != 0 && dstLen >= 3 * (if srcLen >= 0 then srcLen / 4 else -((-srcLen) / 4))
    ensures rc == 0 ==> n <= dstLen && Decoded(Chars(src[..], srcLen)) == Some(dst[..n])
    ensures DecodeAccepts(srcLen, dst, dstLen) && srcLen >= 0 ==> 3 * (|Filtered(Chars(src[..], srcLen))| / 4) <= dstLen
    ensures dst != null && !DecodeAccepts(srcLen, dst, dstLen) ==> dst[..] == old(dst[..])
    ensures DecodeAccepts(srcLen, dst, dstLen) ==>
              SameFrom(dst[..], old(dst[..]), 3 * (|Filtered(Chars(src[..], srcLen))| / 4))
  {
    hide Inverse, Quanta, SameFrom;
    n := 0;
    var table := InverseTable();
    if dstLen == 0 || dstLen < Quarter(srcLen) * 3 { return -1, 0; }
    if dst == null { return -1, 0; }
    SameAll(dst[..]);
    var characters := if srcLen < 0 then 0 else srcLen;   // the loops do not run for a negative length
    assert Chars(src[..], srcLen) == src[..characters];
    var count := CountKept(table, src, characters);
    SameFurther(dst[..], dst[..], 3 * (count / 4));
    if count == 0 || count % 4 != 0 { return -1, 0; }
    rc, n := DecodeLoop(table, src, characters, dst);
    if rc == 0 { QuantaLength(Filtered(src[..characters])); }
  }

  lemma {:induction false} QuantaLength(f: seq<byte>)
    requires AllKept(f)
    ensures Quanta(f).Some? ==> |Quanta(f).value| <= 3 * (|f| / 4)
    ensures Quanta(f).Some? && |f| >= 4 ==> Quanta(f).value != []
  {
    hide QuantumOctets;
    if |f| >= 4 { QuantaLength(f[4..]); }
  }

  // ----- theorems -----

  lemma {:induction false} FilteredAll(t: seq<byte>, n: nat)
    requires n <= |t| && forall i :: 0 <= i < n ==> Kept(t[i])
    ensures FilteredUpTo(t, n) == t[..n]
  {
    if n > 0 {
      FilteredAll(t, n - 1);
      assert t[..n] == t[..n - 1] + [t[n - 1]];
    }
  }

  lemma {:induction false} FilteredConcat(t: seq<byte>, u: seq<byte>, n: nat)
    requires n <= |u|
    ensures FilteredUpTo(t + u, |t| + n) == Filtered(t) + FilteredUpTo(u, n)
  {
    if n == 0 {
      FilteredLocal(t, u, |t|);
    } else {
      FilteredConcat(t, u, n - 1);
      var e := if Kept(u[n - 1]) then [u[n - 1]] else [];
      Assoc(Filtered(t), FilteredUpTo(u, n - 1), e);
    }
  }

  lemma {:induction false} FilteredLocal(t: seq<byte>, u: seq<byte>, n: nat)
    requires n <= |t|
    ensures FilteredUpTo(t + u, n) == FilteredUpTo(t, n)
  {
    if n > 0 { FilteredLocal(t, u, n - 1); }
  }

  /** Characters outside the alphabet make no difference, wherever they stand. */
  lemma DecodedOfFiltered(t: seq<byte>)
    ensures Decoded(Filtered(t)) == Decoded(t)
  {
    hide Quanta, FilteredUpTo;
    FilteredAll(Filtered(t), |Filtered(t)|);
    assert Filtered(t)[..|Filtered(t)|] == Filtered(t);
  }

  /**
   * Four characters: their values in six bits each are cut into octets; one or two
   * padding characters, wherever they stand, count as zeros and drop as many
   * octets, and more are refused.
   */
  lemma QuantumDecoded(q: seq<byte>)
    requires |q| == 4 && AllKept(q)
    ensures var v, w, x, y := Inverse(q[0]), Inverse(q[1]), Inverse(q[2]), Inverse(q[3]);
            var pads := (if q[0] == '=' as int then 1 else 0) + (if q[1] == '=' as int then 1 else 0)
                        + (if q[2] == '=' as int then 1 else 0) + (if q[3] == '=' as int then 1 else 0);
            && (pads > 2 ==> Decoded(q) == None)
            && (pads == 2 ==> Decoded(q) == Some([4 * v + w / 16]))
            && (pads == 1 ==> Decoded(q) == Some([4 * v + w / 16, w % 16 * 16 + x / 4]))
            && (pads == 0 ==> Decoded(q) == Some([4 * v + w / 16, w % 16 * 16 + x / 4, x % 4 * 64 + y]))
  {
    hide Shifted, Inverse, Pads, FilteredUpTo;
    FilteredAll(q, 4);
    assert q[..4] == q && q[4..] == [];
    NoPads(q);
    ShiftRoom(Inverse(q[0]), Inverse(q[1]), Inverse(q[2]), Inverse(q[3]));
    var d := QuantumOctets(q);
    assert Quanta([]) == Some([]) && d + [] == d;
    Firsts(d[0], d[1], d[2]);
    assert d == [d[0], d[1], d[2]];
  }

  lemma Firsts(a: byte, b: byte, c: byte)
    ensures [a, b, c][..1] == [a] && [a, b, c][..2] == [a, b]
  {
  }

  /** Whole quanta without padding are decoded for themselves, and what follows them likewise. */
  lemma DecodedJoin(t: seq<byte>, u: seq<byte>)
    requires AllKept(t) && AllKept(u) && t != [] && u != [] && |t| % 4 == 0 && PAD !in t
    ensures Decoded(t).Some?
    ensures Decoded(t + u) == match Decoded(u)
                              case None => None
                              case Some(e) => Some(Decoded(t).value + e)
  {
    hide Quanta, FilteredUpTo, Inverse;
    FilteredAll(t, |t|);
    FilteredAll(u, |u|);
    FilteredAll(t + u, |t + u|);
    assert t[..|t|] == t && u[..|u|] == u && (t + u)[..|t + u|] == t + u;
    QuantaJoin(t, u);
  }

  lemma {:induction false} QuantaJoin(t: seq<byte>, u: seq<byte>)
    requires AllKept(t) && AllKept(u) && |t| % 4 == 0 && PAD !in t
    ensures AllKept(t + u) && Quanta(t).Some? && Quanta(t + u) == Prepend(Quanta(t).value, Quanta(u))
  {
    hide QuantumOctets, Inverse, Pads;
    if t == [] {
      assert t + u == u;
      assert Quanta(u).Some? ==> [] + Quanta(u).value == Quanta(u).value;
    } else {
      assert (t + u)[..4] == t[..4] && (t + u)[4..] == t[4..] + u;
      NoPads(t[..4]);
      QuantaJoin(t[4..], u);
      PrependTwice(QuantumOctets(t[..4]), Quanta(t[4..]).value, Quanta(u));
    }
  }

  /** A text without characters of the alphabet, or whose number of them and of padding is no multiple of four, is refused. */
  lemma DecodedCount(t: seq<byte>)
    ensures |Filtered(t)| == 0 || |Filtered(t)| % 4 != 0 ==> Decoded(t) == None
    ensures Filtered(t) == [] <==> forall i :: 0 <= i < |t| ==> !Kept(t[i])
  {
    hide Kept;
    FilteredNone(t, |t|);
  }

  lemma {:induction false} FilteredNone(t: seq<byte>, n: nat)
    requires n <= |t|
    ensures FilteredUpTo(t, n) == [] <==> forall i :: 0 <= i < n ==> !Kept(t[i])
  {
    hide Kept;
    if n > 0 { FilteredNone(t, n - 1); }
  }

  /** Once a quantum is padded, the quanta after it make no difference. */
  lemma {:induction false} QuantaAfterPad(f: seq<byte>, g: seq<byte>)
    requires AllKept(f) && AllKept(g) && |f| % 4 == 0 && PAD in f
    ensures AllKept(f + g) && Quanta(f + g) == Quanta(f)
  {
    hide QuantumOctets, Inverse, Pads;
    assert |f| >= 4 && (f + g)[..4] == f[..4];
    if Pads(f[..4], 4) == 0 {
      NoPads(f[..4]);
      assert f == f[..4] + f[4..];
      assert (f + g)[4..] == f[4..] + g;
      QuantaAfterPad(f[4..], g);
    }
  }

  lemma NoPads(q: seq<byte>)
    requires |q| == 4
    ensures Pads(q, 4) == 0 <==> PAD !in q
    ensures Pads(q, 4) == (if q[0] == PAD then 1 else 0) + (if q[1] == PAD then 1 else 0)
                          + (if q[2] == PAD then 1 else 0) + (if q[3] == PAD then 1 else 0)
  {
    assert Pads(q, 2) == Pads(q, 1) + if q[1] == PAD then 1 else 0;
  }

  /**
   * What follows a padded quantum does not change the octets, but it still counts:
   * the text is refused unless the whole number of characters is a multiple of four.
   */
  lemma DecodedAfterPad(t: seq<byte>, u: seq<byte>)
    requires |Filtered(t)| % 4 == 0 && PAD in Filtered(t)
    ensures Decoded(t + u) == if |Filtered(u)| % 4 == 0 then Decoded(t) else None
  {
    hide Quanta, FilteredUpTo;
    FilteredConcat(t, u, |u|);
    FilteredEnds(t + u);
    FilteredEnds(u);
    QuantaAfterPad(Filtered(t), Filtered(u));
  }

  /** "QQ==" is one octet, "QQ==A" is an error. */
  lemma LateCharacterMatters()
    ensures Decoded([81, 81, PAD, PAD]) == Some([65]) && Decoded([81, 81, PAD, PAD, 65]) == None
  {
    hide Quanta, Encoded, FilteredUpTo;
    var t := [81, 81, PAD, PAD];
    assert t == Encoded([65]) by { OneOctet(65); }
    DecodeOfEncode([65]);
    FilteredAll(t, 4);
    FilteredAll([65], 1);
    assert t[..4] == t && t + [65] == [81, 81, PAD, PAD, 65];
    DecodedAfterPad(t, [65]);
  }

  lemma OneOctet(b: byte)
    ensures Encoded([b]) == [Symbol(b / 4), Symbol(b % 4 * 16), PAD, PAD]
  {
  }

  lemma SymbolsRead(v: (nat, nat, nat, nat))
    requires v.0 < 64 && v.1 < 64 && v.2 < 64 && v.3 < 64
    ensures var q := [Symbol(v.0), Symbol(v.1), Symbol(v.2), Symbol(v.3)];
            AllKept(q) && Pads(q, 4) == 0 && QuantumOctets(q) == Octets(v.0, v.1, v.2, v.3)
  {
    hide Octets, Pads;
    NoPads([Symbol(v.0), Symbol(v.1), Symbol(v.2), Symbol(v.3)]);
  }

  lemma TailRead(x: seq<byte>)
    requires 1 <= |x| <= 2
    ensures |Tail(x)| == 4 && AllKept(Tail(x)) && Pads(Tail(x), 4) == 3 - |x|
    ensures QuantumOctets(Tail(x))[..|x|] == x
  {
    hide Octets, Pads;
    NoPads(Tail(x));
    OctetsOfQuantum(x[0], if |x| == 2 then x[1] else 0, 0);
  }

  /** The decoder takes an encoding apart, quantum by quantum. */
  lemma {:induction false} QuantaOfEncoded(x: seq<byte>)
    ensures AllKept(Encoded(x)) && Quanta(Encoded(x)) == Some(x)
  {
    hide Tail, QuantumOctets, Symbol, Pads, Octets, Inverse;
    var t := Encoded(x);
    if |x| == 0 {
    } else if |x| <= 2 {
      TailRead(x);
      assert t[..4] == t;
    } else {
      var v := Values(x[0], x[1], x[2]);
      SymbolsRead(v);
      OctetsOfQuantum(x[0], x[1], x[2]);
      QuantaOfEncoded(x[3..]);
      assert t[..4] == Quantum(x[0], x[1], x[2]) && t[4..] == Encoded(x[3..]);
      assert [x[0], x[1], x[2]] + x[3..] == x;
    }
  }

  /** Decoding an encoding gives the octets back; the empty string, which encodes to nothing, is refused. */
  lemma DecodeOfEncode(x: seq<byte>)
    ensures Decoded(Encoded(x)) == if x == [] then None else Some(x)
  {
    hide Quanta, Encoded, FilteredUpTo;
    var t := Encoded(x);
    QuantaOfEncoded(x);
    FilteredAll(t, |t|);
    assert t[..|t|] == t;
  }

  /** The room base64::decode asks for an encoding: its octets rounded up to whole quanta. */
  lemma DecodeRoom(x: seq<byte>, dst: array<byte>, dstLen: int)
    requires x != []
    ensures DecodeAccepts(|Encoded(x)|, dst, dstLen) <==> dstLen >= 3 * ((|x| + 2) / 3)
  {
    hide Encoded;
    QuarterOfText((|x| + 2) / 3);
  }

  lemma QuarterOfText(k: nat)
    ensures Quarter(4 * k) == k
  {
  }

  /** The last quantum of a canonical text: the bits the padding leaves over are zero. */
  predicate LastCanonical(q: seq<byte>)
    requires |q| == 4
  {
    && q[0] != PAD && q[1] != PAD
    && (if q[3] != PAD then q[2] != PAD
        else if q[2] != PAD then Inverse(q[2]) % 4 == 0
        else Inverse(q[1]) % 16 == 0)
  }

  /** Canonical texts (sections 3.5 and 4 of RFC 4648). */
  predicate Canonical(t: seq<byte>) {
    && AllKept(t) && |t| >= 4
    && if |t| == 4 then LastCanonical(t) else PAD !in t[..4] && Canonical(t[4..])
  }

  lemma TailCanonical(x: seq<byte>)
    requires 1 <= |x| <= 2
    ensures AllKept(Tail(x)) && |Tail(x)| == 4 && LastCanonical(Tail(x))
  {
  }

  lemma QuantumCanonical(a: byte, b: byte, c: byte)
    ensures AllKept(Quantum(a, b, c)) && PAD !in Quantum(a, b, c) && LastCanonical(Quantum(a, b, c))
  {
    hide Symbol, Inverse;
  }

  lemma {:induction false} EncodedCanonical(x: seq<byte>)
    requires x != []
    ensures Canonical(Encoded(x))
  {
    hide Tail, Quantum, LastCanonical, Inverse;
    var t := Encoded(x);
    if |x| <= 2 {
      TailCanonical(x);
    } else {
      QuantumCanonical(x[0], x[1], x[2]);
      assert t[..4] == Quantum(x[0], x[1], x[2]) && t[4..] == Encoded(x[3..]);
      if |x| > 3 {
        EncodedCanonical(x[3..]);
        KeptJoin(t[..4], t[4..]);
        assert t == t[..4] + t[4..];
      } else {
        assert t[..4] == t;
      }
    }
  }

  lemma KeptJoin(a: seq<byte>, b: seq<byte>)
    requires AllKept(a) && AllKept(b)
    ensures AllKept(a + b)
  {
  }

  lemma SameSymbols(q: seq<byte>)
    requires |q| == 4 && AllKept(q) && PAD !in q
    ensures Pads(q, 4) == 0
    ensures var d := QuantumOctets(q); Quantum(d[0], d[1], d[2]) == q
  {
    hide Symbol, Inverse, Octets, Pads;
    NoPads(q);
    QuantumOfOctets(Inverse(q[0]), Inverse(q[1]), Inverse(q[2]), Inverse(q[3]));
    forall i | 0 <= i < 4
      ensures Symbol(Inverse(q[i])) == q[i]
    {
      SymbolOfInverse(q[i]);
    }
  }

  lemma SameOnePad(q: seq<byte>)
    requires |q| == 4 && AllKept(q) && LastCanonical(q) && q[3] == PAD && q[2] != PAD
    ensures Pads(q, 4) == 1 && Tail(QuantumOctets(q)[..2]) == q
  {
    hide Symbol, Inverse, Pads, Shifted;
    NoPads(q);
    var v0, v1, v2 := Inverse(q[0]), Inverse(q[1]), Inverse(q[2]);
    PadIsZero();
    QuantumOfOctets(v0, v1, v2, 0);
    ShiftRoom(v0, v1, v2, 0);
    SymbolOfInverse(q[0]);
    SymbolOfInverse(q[1]);
    SymbolOfInverse(q[2]);
  }

  lemma SameTwoPads(q: seq<byte>)
    requires |q| == 4 && AllKept(q) && LastCanonical(q) && q[3] == q[2] == PAD
    ensures Pads(q, 4) == 2 && Tail(QuantumOctets(q)[..1]) == q
  {
    hide Symbol, Inverse, Pads, Shifted;
    NoPads(q);
    var v0, v1 := Inverse(q[0]), Inverse(q[1]);
    PadIsZero();
    QuantumOfOctets(v0, v1, 0, 0);
    ShiftRoom(v0, v1, 0, 0);
    SymbolOfInverse(q[0]);
    SymbolOfInverse(q[1]);
  }

  lemma PadIsZero()
    ensures Inverse(PAD) == 0
  {
  }

  lemma {:induction false} EncodeOfQuanta(t: seq<byte>)
    requires Canonical(t)
    ensures |t| % 4 == 0 && Quanta(t).Some? && Encoded(Quanta(t).value) == t
  {
    hide QuantumOctets, Inverse, Pads, Tail, Quantum;
    if |t| == 4 {
      assert t[..4] == t && t[4..] == [];
      if t[3] == PAD {
        if t[2] == PAD { SameTwoPads(t); } else { SameOnePad(t); }
      } else {
        SameSymbols(t);
        assert QuantumOctets(t) + [] == QuantumOctets(t) && QuantumOctets(t)[3..] == [];
      }
    } else {
      SameSymbols(t[..4]);
      EncodeOfQuanta(t[4..]);
      var d, e := QuantumOctets(t[..4]), Quanta(t[4..]).value;
      assert (d + e)[3..] == e;
      assert t[..4] + t[4..] == t;
    }
  }

  /** Encoding undoes decoding exactly on the canonical texts. */
  lemma EncodeOfDecode(t: seq<byte>)
    ensures Canonical(t) <==> Decoded(t).Some? && Encoded(Decoded(t).value) == t
  {
    hide Quanta, Encoded, FilteredUpTo, LastCanonical;
    if Canonical(t) {
      EncodeOfQuanta(t);
      FilteredAll(t, |t|);
      assert t[..|t|] == t;
    }
    if Decoded(t).Some? && Encoded(Decoded(t).value) == t {
      QuantaLength(Filtered(t));
      EncodedCanonical(Decoded(t).value);
    }
  }

  // ----- meaning: the text is the octets cut into groups of six bits -----

  /** The six-bit groups of the characters before the padding. */
  function GroupBits(t: seq<byte>): seq<bool>
    requires AllKept(t)
  {
    if t == [] || t[0] == PAD then [] else NatBits(Inverse(t[0]), 6) + GroupBits(t[1..])
  }

  lemma SplitBits(v: byte)
    ensures NatBits(v, 8) == NatBits(v / 4, 6) + NatBits(v % 4, 2)
    ensures NatBits(v, 8) == NatBits(v / 16, 4) + NatBits(v % 16, 4)
    ensures NatBits(v, 8) == NatBits(v / 64, 2) + NatBits(v % 64, 6)
  {
    hide NatBits;
    ShiftSteps(v / 4);
    ShiftSteps(v / 16);
    ShiftSteps(v / 64);
    NatBitsConcat(v / 4, 6, v % 4, 2);
    NatBitsConcat(v / 16, 4, v % 16, 4);
    NatBitsConcat(v / 64, 2, v % 64, 6);
  }

  lemma ShiftSteps(v: nat)
    ensures Shl(v, 2) == 4 * v && Shl(v, 4) == 16 * v && Shl(v, 6) == 64 * v
    ensures Pow2(2) == 4 && Pow2(4) == 16 && Pow2(6) == 64
  {
    hide Shl, Pow2;
    FourTimes(v, 0);
    FourTimes(v, 2);
    FourTimes(v, 4);
  }

  lemma FourTimes(v: nat, k: nat)
    ensures Shl(v, k + 2) == 4 * Shl(v, k) && Pow2(k + 2) == 4 * Pow2(k) && Shl(v, 0) == v && Pow2(0) == 1
  {
    assert Shl(v, k + 2) == 2 * Shl(v, k + 1) && Pow2(k + 2) == 2 * Pow2(k + 1);
  }

  /** The middle groups join two octets. */
  lemma JoinedBits(a: byte, b: byte)
    ensures NatBits(a % 4 * 16 + b / 16, 6) == NatBits(a % 4, 2) + NatBits(b / 16, 4)
    ensures NatBits(a % 16 * 4 + b / 64, 6) == NatBits(a % 16, 4) + NatBits(b / 64, 2)
  {
    hide NatBits;
    ShiftSteps(a % 4);
    ShiftSteps(a % 16);
    NatBitsConcat(a % 4, 2, b / 16, 4);
    NatBitsConcat(a % 16, 4, b / 64, 2);
  }

  lemma GroupsOfFour(q: seq<byte>, t: seq<byte>)
    requires |q| == 4 && AllKept(q) && AllKept(t) && PAD !in q
    ensures AllKept(q + t)
    ensures GroupBits(q + t) == NatBits(Inverse(q[0]), 6) + NatBits(Inverse(q[1]), 6)
                                + NatBits(Inverse(q[2]), 6) + NatBits(Inverse(q[3]), 6) + GroupBits(t)
  {
    hide NatBits, Inverse, GroupBits, AllKept;
    KeptJoin(q, t);
    KeptParts(q, t);
    assert q + t == [q[0]] + ([q[1]] + ([q[2]] + ([q[3]] + t)));
    GroupsStep(q[3], t);
    GroupsStep(q[2], [q[3]] + t);
    GroupsStep(q[1], [q[2]] + ([q[3]] + t));
    GroupsStep(q[0], [q[1]] + ([q[2]] + ([q[3]] + t)));
    FourJoined(NatBits(Inverse(q[0]), 6), NatBits(Inverse(q[1]), 6), NatBits(Inverse(q[2]), 6),
               NatBits(Inverse(q[3]), 6), GroupBits(t));
  }

  lemma KeptParts(q: seq<byte>, t: seq<byte>)
    requires |q| == 4 && AllKept(q) && AllKept(t)
    ensures Kept(q[0]) && Kept(q[1]) && Kept(q[2]) && Kept(q[3])
  {
  }

  lemma GroupsStep(c: byte, t: seq<byte>)
    requires Kept(c) && AllKept(t)
    ensures AllKept([c] + t)
    ensures GroupBits([c] + t) == if c == PAD then [] else NatBits(Inverse(c), 6) + GroupBits(t)
  {
    assert ([c] + t)[1..] == t;
  }

  lemma FourJoined(a: seq<bool>, b: seq<bool>, c: seq<bool>, d: seq<bool>, e: seq<bool>)
    ensures a + (b + (c + (d + e))) == a + b + c + d + e
  {
  }

  /** Octets missing from the last quantum. */
  function Missing(n: nat): (k: nat)
    ensures k < 3 && (n + k) % 3 == 0
  {
    (3 - n % 3) % 3
  }

  /** The text before the padding is the octets in groups of six bits, the last group completed with zeros. */
  lemma {:induction false} EncodedMeaning(x: seq<byte>)
    ensures AllKept(Encoded(x))
    ensures GroupBits(Encoded(x)) == BytesBits(x) + Zeros(2 * Missing(|x|))
  {
    hide *;
    QuantaOfEncoded(x);
    if |x| == 0 {
      NothingThere();
      Nothing();
      assert x == [];
    } else if |x| <= 2 {
      TailMeaning(x);
      LastQuantum(x, 0);
      assert x[0..] == x;
    } else {
      EncodedMeaning(x[3..]);
      MissingStep(|x|);
      MeaningStep(x, Zeros(2 * Missing(|x|)));
    }
  }

  lemma MissingStep(n: nat)
    requires n >= 3
    ensures Missing(n - 3) == Missing(n)
  {
  }

  lemma MeaningStep(x: seq<byte>, z: seq<bool>)
    requires |x| >= 3 && AllKept(Encoded(x[3..])) && GroupBits(Encoded(x[3..])) == BytesBits(x[3..]) + z
    ensures AllKept(Encoded(x)) && GroupBits(Encoded(x)) == BytesBits(x) + z
  {
    hide *;
    var q, t := Quantum(x[0], x[1], x[2]), Encoded(x[3..]);
    OneQuantum(x, 0);
    assert x[0..] == x;
    QuantumCanonical(x[0], x[1], x[2]);
    GroupsOfFour(q, t);
    QuantumMeaning(x[0], x[1], x[2]);
    FirstThree(x);
    BytesBitsConcat([x[0], x[1], x[2]], x[3..]);
    Assoc(BytesBits([x[0], x[1], x[2]]), BytesBits(x[3..]), z);
  }

  lemma FirstThree(x: seq<byte>)
    requires |x| >= 3
    ensures x == [x[0], x[1], x[2]] + x[3..]
  {
  }

  /** Padding characters stand at the end and nowhere else, as many as octets are missing. */
  lemma {:induction false} EncodedPads(x: seq<byte>)
    ensures forall i :: 0 <= i < |Encoded(x)| ==>
              (Encoded(x)[i] == PAD <==> i >= |Encoded(x)| - Missing(|x|))
  {
    hide Symbol, Quantum;
    if |x| > 2 {
      EncodedPads(x[3..]);
      QuantumCanonical(x[0], x[1], x[2]);
      MissingStep(|x|);
    }
  }

  lemma Nothing()
    ensures Encoded([]) == [] && GroupBits([]) == [] && Missing(0) == 0
  {
  }

  lemma TwoBytes(a: byte, b: byte)
    ensures BytesBits([a, b]) == NatBits(a, 8) + NatBits(b, 8) && BytesBits([a]) == NatBits(a, 8)
  {
    hide NatBits;
    SingleByte(a);
    SingleByte(b);
    BytesBitsConcat([a], [b]);
    assert [a] + [b] == [a, b];
  }

  lemma QuantumMeaning(a: byte, b: byte, c: byte)
    ensures var q := Quantum(a, b, c);
            NatBits(Inverse(q[0]), 6) + NatBits(Inverse(q[1]), 6) + NatBits(Inverse(q[2]), 6) + NatBits(Inverse(q[3]), 6)
            == BytesBits([a, b, c])
  {
    hide NatBits, Inverse, Symbol, BytesBits;
    SplitBits(a);
    SplitBits(b);
    SplitBits(c);
    JoinedBits(a, b);
    JoinedBits(b, c);
    TwoBytes(a, b);
    TwoBytes(c, c);
    BytesBitsConcat([a, b], [c]);
    assert [a, b] + [c] == [a, b, c];
  }

  lemma PadsEnd(c: byte)
    requires Kept(c)
    ensures GroupBits([PAD]) == GroupBits([PAD, PAD]) == [] && GroupBits([c, PAD]) == GroupBits([c] + [PAD])
    ensures AllKept([PAD]) && AllKept([PAD, PAD]) && AllKept([c, PAD])
  {
    assert [c] + [PAD] == [c, PAD];
  }

  lemma OneOctetMeaning(a: byte)
    ensures AllKept(Tail([a])) && GroupBits(Tail([a])) == BytesBits([a]) + Zeros(4)
  {
    hide NatBits, Symbol, Inverse, BytesBits, Zeros, GroupBits;
    var t := Tail([a]);
    TailCanonical([a]);
    PadsEnd(t[0]);
    GroupsStep(t[1], [PAD, PAD]);
    GroupsStep(t[0], [t[1]] + [PAD, PAD]);
    assert t == [t[0]] + ([t[1]] + [PAD, PAD]);
    TwoBytes(a, a);
    SplitBits(a);
    JoinedBits(a, 0);
    ZeroBits();
    Regroup(NatBits(a / 4, 6), NatBits(a % 4, 2), Zeros(4));
  }

  lemma TwoOctetsMeaning(a: byte, b: byte)
    ensures AllKept(Tail([a, b])) && GroupBits(Tail([a, b])) == BytesBits([a, b]) + Zeros(2)
  {
    hide NatBits, Symbol, Inverse, BytesBits, Zeros, GroupBits;
    var t := Tail([a, b]);
    TailCanonical([a, b]);
    PadsEnd(t[0]);
    GroupsStep(t[2], [PAD]);
    GroupsStep(t[1], [t[2]] + [PAD]);
    GroupsStep(t[0], [t[1]] + ([t[2]] + [PAD]));
    assert t == [t[0]] + ([t[1]] + ([t[2]] + [PAD]));
    TwoBytes(a, b);
    SplitBits(a);
    SplitBits(b);
    JoinedBits(a, b);
    JoinedBits(b, 0);
    ZeroBits();
    Regroup2(NatBits(a / 4, 6), NatBits(a % 4, 2), NatBits(b / 16, 4), NatBits(b % 16, 4), Zeros(2));
  }

  lemma Regroup(a: seq<bool>, b: seq<bool>, z: seq<bool>)
    ensures a + (b + z + []) == a + b + z
  {
  }

  lemma Regroup2(a: seq<bool>, b: seq<bool>, c: seq<bool>, d: seq<bool>, z: seq<bool>)
    ensures a + (b + c + (d + z + [])) == a + b + (c + d) + z
  {
  }

  lemma TailMeaning(x: seq<byte>)
    requires 1 <= |x| <= 2
    ensures AllKept(Tail(x)) && GroupBits(Tail(x)) == BytesBits(x) + Zeros(2 * Missing(|x|))
  {
    hide BytesBits, Zeros, GroupBits, Tail;
    OneOctetMeaning(x[0]);
    if |x| == 2 {
      TwoOctetsMeaning(x[0], x[1]);
      assert x == [x[0], x[1]];
    } else {
      assert x == [x[0]];
    }
  }

  lemma ZeroBits()
    ensures NatBits(0, 4) == Zeros(4) && NatBits(0, 2) == Zeros(2)
  {
    NatBitsZero(4);
    NatBitsZero(2);
  }

  // ----- the trace of the E2 termination -----

  const RECEIVE_SCTP_BUFFER_SIZE: nat := 131072   // 128 * 1024

  /** ReportingMessages_t, as far as buildJsonMessage writes it. */
  class ReportingMessages {
    const base64Data: array<byte>
    var outLen: int

    constructor ()
      ensures base64Data.Length == 262144 && fresh(base64Data) && outLen == 0
    {
      base64Data := new byte[RECEIVE_SCTP_BUFFER_SIZE * 2](_ => 0);
      outLen := 0;
    }

    /**
     * buildJsonMessage: every payload the buffers can hold fits base64Data. The
     * result of the encoder is ignored, so a payload without octets leaves the
     * text of an earlier message and the size of the buffer as its length.
     */
    method BuildJsonMessage(asndata: array<byte>, asnLength: int)
      requires base64Data.Length == 262144 && asndata != base64Data
      requires asnLength <= asndata.Length && asnLength <= 131072
      modifies this, base64Data
      ensures asnLength > 0 ==> outLen == 4 * ((asnLength + 2) / 3) < base64Data.Length
                                && base64Data[..outLen] == Encoded(asndata[..asnLength]) && base64Data[outLen] == 0
      ensures asnLength <= 0 ==> outLen == base64Data.Length && base64Data[..] == old(base64Data[..])
    {
      var rc;
      rc, outLen := Encode(asndata, asnLength, base64Data, base64Data.Length);
    }
  }
}
