/** BIT_STRING_jer.c: the JSON encoding rules (ITU-T X.697). */
module JerBitString {
  import opened Bits
  import opened BitStr
  import opened Text
  import Oer = OerBitString

  const LONG_MAX: int := 0x7FFF_FFFF_FFFF_FFFF
  const SIZE_MODULUS: nat := 0x1_0000_0000_0000_0000   // size_t arithmetic wraps here

  // ----- hexadecimal text -----

  /** h2c */
  function HexDigit(v: nat): (c: char)
    requires v < 16
    ensures c != '"' && HexValue(c) == Some(v)
  {
    if v < 10 then DigitChar(v) else ('A' as int + (v - 10)) as char
  }

  function HexValue(c: char): (v: Option<nat>)
    ensures v.Some? ==> v.value < 16
  {
    if IsDigit(c) then Some(DigitValue(c))
    else if 'A' <= c <= 'F' then Some(c as int - 'A' as int + 10)
    else if 'a' <= c <= 'f' then Some(c as int - 'a' as int + 10)
    else None
  }

  /** Two digits an octet, the high one first. */
  function HexText(data: seq<byte>): (s: string)
    ensures |s| == 2 * |data| && forall i :: 0 <= i < |s| ==> s[i] != '"'
  {
    seq(2 * |data|, i requires 0 <= i < 2 * |data| => HexDigit(if i % 2 == 0 then data[i / 2] / 16 else data[i / 2] % 16))
  }

  predicate AllHex(s: string, n: nat)
    requires n <= |s|
  {
    forall i :: 0 <= i < n ==> HexValue(s[i]).Some?
  }

  function HexPair(s: string, i: nat): byte
    requires 2 * i + 1 < |s| && AllHex(s, 2 * i + 2)
  {
    HexValue(s[2 * i]).value * 16 + HexValue(s[2 * i + 1]).value
  }

  /** The octets hexadecimal text denotes: both cases of letters, an even number of digits. */
  function HexOctets(s: string): Option<seq<byte>> {
    if AllHex(s, |s|) && |s| % 2 == 0 then Some(seq(|s| / 2, i requires 0 <= i < |s| / 2 => HexPair(s, i))) else None
  }

  lemma HexInverse(data: seq<byte>)
    ensures HexOctets(HexText(data)) == Some(data)
  {
    var s := HexText(data);
    forall i | 0 <= i < |data|
      ensures HexPair(s, i) == data[i]
    {
      assert s[2 * i] == HexDigit(data[i] / 16);
      assert s[2 * i + 1] == HexDigit(data[i] % 16) by { assert (2 * i + 1) / 2 == i; }
    }
    assert HexOctets(s).value == data;
  }

  /** A character is the hexadecimal digit v: either case of the letters. */
  predicate IsDigitOf(c: char, v: nat)
    requires v < 16
  {
    c == "0123456789ABCDEF"[v] || c == "0123456789abcdef"[v]
  }

  /** The digits of value v are exactly those. */
  lemma HexValueExactly(c: char, v: nat)
    requires v < 16
    ensures HexValue(c) == Some(v) <==> c == "0123456789ABCDEF"[v] || c == "0123456789abcdef"[v]
    ensures HexDigit(v) == "0123456789ABCDEF"[v]
  {
    var digits, upper, lower := "0123456789", "0123456789ABCDEF", "0123456789abcdef";
    if v < 10 {
      assert digits[v] as int == '0' as int + v && upper[v] == digits[v] && lower[v] == digits[v];
    } else {
      assert upper[v] as int == 'A' as int + (v - 10) && lower[v] as int == 'a' as int + (v - 10);
    }
  }

  /** The text printed: the high digit of each octet and then the low one, in upper case. */
  lemma HexTextAt(data: seq<byte>, i: nat)
    requires i < |data|
    ensures HexText(data)[2 * i] == "0123456789ABCDEF"[data[i] / 16]
    ensures HexText(data)[2 * i + 1] == "0123456789ABCDEF"[data[i] % 16]
  {
    hide HexDigit;
    HexValueExactly('0', data[i] / 16);
    HexValueExactly('0', data[i] % 16);
    assert (2 * i) / 2 == i && (2 * i + 1) / 2 == i;
  }

  /** Hexadecimal text denotes exactly the octets whose digits it shows, in either case. */
  lemma HexOctetsExactly(s: string, data: seq<byte>)
    ensures HexOctets(s) == Some(data) <==>
              && |s| == 2 * |data|
              && forall i :: 0 <= i < |data| ==> IsDigitOf(s[2 * i], data[i] / 16) && IsDigitOf(s[2 * i + 1], data[i] % 16)
  {
    hide HexValue, HexDigit, IsDigitOf;
    if |s| == 2 * |data| {
      forall i | 0 <= i < |data|
        ensures IsDigitOf(s[2 * i], data[i] / 16) <==> HexValue(s[2 * i]) == Some(data[i] / 16)
        ensures IsDigitOf(s[2 * i + 1], data[i] % 16) <==> HexValue(s[2 * i + 1]) == Some(data[i] % 16)
      {
        DigitOf(s[2 * i], data[i] / 16);
        DigitOf(s[2 * i + 1], data[i] % 16);
      }
      HexByPairs(s, data);
    }
  }

  lemma DigitOf(c: char, v: nat)
    requires v < 16
    ensures IsDigitOf(c, v) <==> HexValue(c) == Some(v)
  {
    HexValueExactly(c, v);
  }

  lemma HexByPairs(s: string, data: seq<byte>)
    requires |s| == 2 * |data|
    ensures HexOctets(s) == Some(data) <==>
              forall i :: 0 <= i < |data| ==>
                HexValue(s[2 * i]) == Some(data[i] / 16) && HexValue(s[2 * i + 1]) == Some(data[i] % 16)
  {
    hide HexValue;
    if forall i :: 0 <= i < |data| ==>
         HexValue(s[2 * i]) == Some(data[i] / 16) && HexValue(s[2 * i + 1]) == Some(data[i] % 16) {
      forall k | 0 <= k < |s|
        ensures HexValue(s[k]).Some?
      {
        var i := k / 2;
        assert HexValue(s[2 * i]) == Some(data[i] / 16) && HexValue(s[2 * i + 1]) == Some(data[i] % 16);
        assert k == 2 * i || k == 2 * i + 1;
      }
      assert HexOctets(s).value == data;
    }
    if HexOctets(s) == Some(data) {
      forall i | 0 <= i < |data|
        ensures HexValue(s[2 * i]) == Some(data[i] / 16) && HexValue(s[2 * i + 1]) == Some(data[i] % 16)
      {
        PairDigits(s, data, i);
      }
    }
  }

  lemma PairDigits(s: string, data: seq<byte>, i: nat)
    requires HexOctets(s) == Some(data) && i < |data|
    ensures |s| == 2 * |data| && HexValue(s[2 * i]) == Some(data[i] / 16) && HexValue(s[2 * i + 1]) == Some(data[i] % 16)
  {
    hide HexValue;
    var octets := HexOctets(s).value;
    assert octets[i] == HexPair(s, i);
    Digits(HexValue(s[2 * i]).value, HexValue(s[2 * i + 1]).value);
  }

  lemma Digits(h: nat, l: nat)
    requires h < 16 && l < 16
    ensures (h * 16 + l) / 16 == h && (h * 16 + l) % 16 == l
  {
  }

  /** Two texts that agree up to the case of the letters A to F. */
  predicate SameButCase(x: string, y: string) {
    |x| == |y| && forall i :: 0 <= i < |x| ==> x[i] == y[i] || ('A' <= y[i] <= 'F' && x[i] as int == y[i] as int + 32)
  }

  /** The printed digits in any mixture of cases denote the same octets. */
  lemma MixedCase(s: string, data: seq<byte>)
    requires SameButCase(s, HexText(data))
    ensures HexOctets(s) == Some(data) && '"' !in s
  {
    hide HexOctets, HexText, IsDigitOf;
    forall i | 0 <= i < |data|
      ensures IsDigitOf(s[2 * i], data[i] / 16) && IsDigitOf(s[2 * i + 1], data[i] % 16)
    {
      HexTextAt(data, i);
      CaseOfDigit(s[2 * i], data[i] / 16);
      CaseOfDigit(s[2 * i + 1], data[i] % 16);
    }
    HexOctetsExactly(s, data);
  }

  lemma CaseOfDigit(c: char, v: nat)
    requires v < 16
    requires var u := "0123456789ABCDEF"[v]; c == u || ('A' <= u <= 'F' && c as int == u as int + 32)
    ensures IsDigitOf(c, v)
  {
    var upper, lower := "0123456789ABCDEF", "0123456789abcdef";
    if v >= 10 {
      assert upper[v] as int == 'A' as int + (v - 10) && lower[v] as int == 'a' as int + (v - 10);
    }
  }

  lemma HexStep(data: seq<byte>, i: nat)
    requires i < |data|
    ensures HexText(data)[..2 * (i + 1)] == HexText(data)[..2 * i] + [HexDigit(data[i] / 16), HexDigit(data[i] % 16)]
  {
    assert (2 * i) / 2 == i && (2 * i + 1) / 2 == i;
  }

  // ----- encoder -----

  function Quoted(s: string): string {
    "\"" + s + "\""
  }

  const MAX_SHIFT: nat := 23   // 0xff shifted further does not fit an int

  /** v & (0xff << u) in an octet */
  function MaskOctet(v: byte, u: nat): byte {
    if u <= 7 then Oer.MaskLow(v, u) else 0
  }

  /** The octets printed: the unused bits of the last one are cleared. */
  function Shown(st: BitString): (m: seq<byte>)
    requires 0 <= st.unused
    ensures |m| == |st.data|
    ensures st.unused <= 7 ==> m == Oer.Masked(st.data, st.unused)
    ensures st.unused >= 8 && st.data != [] ==> m == st.data[..|st.data| - 1] + [0]
  {
    if st.data == [] then [] else st.data[..|st.data| - 1] + [MaskOctet(st.data[|st.data| - 1], st.unused)]
  }

  /** The hexadecimal value of a BIT STRING, padding cleared, in quotes. */
  function ValueText(st: BitString): string
    requires 0 <= st.unused
  {
    Quoted(HexText(Shown(st)))
  }

  function KeyText(open: string, key: string, level: int, minified: bool): string {
    if minified then open + (Quoted(key) + ":") else open + Indent(level) + (Quoted(key) + ": ")
  }

  function CloseText(level: int, minified: bool): string {
    if minified then "}" else Indent(level) + "}"
  }

  /** The number of bits as size_t arithmetic gives it. */
  function BitCount(st: BitString): nat {
    (8 * |st.data| - st.unused) % SIZE_MODULUS
  }

  /** The whole text; ct is the fixed size, if there is one. */
  function JerText(st: BitString, ct: Option<nat>, ilevel: int, minified: bool): string
    requires 0 <= st.unused
  {
    if ct.Some? then ValueText(st)
    else
      KeyText("{", "value", ilevel + 1, minified) + ValueText(st)
      + KeyText(",", "length", ilevel + 1, minified) + Decimal(BitCount(st)) + CloseText(ilevel, minified)
  }

  const SCRATCH: nat := 16 * 3 + 4

  /** Fill of the scratch buffer in the dump loop. */
  predicate Fill(p: nat, buf: nat, size: nat) {
    if size > 16 then p == (if buf == 0 then 1 else 2 * ((buf - 1) % 16 + 1)) else p == 1 + 2 * buf
  }

  /** What is handed out plus what is waiting in the scratch buffer. */
  ghost function Pending(out: string, scratch: array<char>, p: nat): string
    requires p <= scratch.Length
    reads scratch
  {
    out + scratch[..p]
  }

  lemma FillBound(p: nat, buf: nat, size: nat)
    requires Fill(p, buf, size) && buf < size - 1
    ensures p <= 33
    ensures buf % 16 == 0 && (buf > 0 || size > 16) ==> Fill(2, buf + 1, size)
    ensures !(buf % 16 == 0 && (buf > 0 || size > 16)) ==> Fill(p + 2, buf + 1, size)
  {
  }

  /** ASN__CALLBACK(scratch, p - scratch) */
  method Flush(cb: Sink<char>, scratch: array<char>, p: nat)
    requires p <= scratch.Length
    modifies cb
    ensures cb.out == old(Pending(cb.out, scratch, p)) == Pending(cb.out, scratch, 0)
  {
    cb.Consume(scratch[..p]);
  }

  /** One octet of the dump. */
  method DumpOctet(cb: Sink<char>, scratch: array<char>, p: nat, buf: nat, size: nat, ghost m: seq<byte>, v: byte,
                   ghost start: string) returns (q: nat)
    requires scratch.Length == SCRATCH && buf < size - 1 && Fill(p, buf, size)
    requires buf < |m| && m[buf] == v && p <= SCRATCH
    requires Pending(cb.out, scratch, p) == start + HexText(m)[..2 * buf]
    modifies cb, scratch
    ensures q <= SCRATCH && Fill(q, buf + 1, size)
    ensures Pending(cb.out, scratch, q) == start + HexText(m)[..2 * (buf + 1)]
  {
    hide HexText, HexDigit, Pending, Fill;
    FillBound(p, buf, size);
    q := p;
    if buf % 16 == 0 && (buf != 0 || size > 16) {
      Flush(cb, scratch, q);
      q := 0;
    }
    HexStep(m, buf);
    Assoc(start, HexText(m)[..2 * buf], [HexDigit(v / 16), HexDigit(v % 16)]);
    q := PutHex(cb.out, scratch, q, v, start + HexText(m)[..2 * buf]);
  }

  /** The hex dump loop: chunks through the scratch buffer, the last octet on its own. */
  method DumpHex(st: BitString, cb: Sink<char>)
    requires 0 <= st.unused <= MAX_SHIFT
    modifies cb
    ensures cb.out == old(cb.out) + ValueText(st)
  {
    hide HexText, HexDigit, MaskOctet, Pending;
    ghost var m := Shown(st);
    ghost var start := cb.out + "\"";
    var scratch := new char[SCRATCH];
    var p: nat, buf: nat := 0, 0;
    scratch[p] := '"';
    p := p + 1;
    var end := |st.data| - 1;
    QuoteFirst(cb.out, scratch);
    assert start + HexText(m)[..0] == start;
    while buf < end
      invariant 0 <= buf <= |st.data| && (|st.data| > 0 ==> buf <= end)
      invariant 0 <= p <= SCRATCH && Fill(p, buf, |st.data|)
      invariant Pending(cb.out, scratch, p) == start + HexText(m)[..2 * buf]
    {
      p := DumpOctet(cb, scratch, p, buf, |st.data|, m, st.data[buf], start);
      buf := buf + 1;
    }
    Flush(cb, scratch, p);
    p := 0;
    if buf == end {
      var v := MaskOctet(st.data[buf], st.unused);
      HexStep(m, buf);
      Assoc(start, HexText(m)[..2 * buf], [HexDigit(v / 16), HexDigit(v % 16)]);
      p := PutHex(cb.out, scratch, p, v, start + HexText(m)[..2 * buf]);
      Flush(cb, scratch, p);
      p := 0;
    }
    assert HexText(m)[..2 * |m|] == HexText(m);
    scratch[p] := '"';
    p := p + 1;
    cb.Consume(scratch[..p]);
    Wrapped(old(cb.out), HexText(m));
  }

  lemma QuoteFirst(out: string, scratch: array<char>)
    requires scratch.Length > 0 && scratch[0] == '"'
    ensures Pending(out, scratch, 1) == out + "\""
  {
  }

  lemma Wrapped(w: string, t: string)
    ensures w + "\"" + t + "\"" == w + Quoted(t)
  {
  }

  /** Two hex digits into the scratch buffer. */
  method PutHex(ghost out: string, scratch: array<char>, p: nat, v: byte, ghost was: string) returns (q: nat)
    requires p + 2 <= scratch.Length && Pending(out, scratch, p) == was
    modifies scratch
    ensures q == p + 2 && Pending(out, scratch, q) == was + [HexDigit(v / 16), HexDigit(v % 16)]
  {
    hide HexDigit;
    scratch[p] := HexDigit(v / 16);
    scratch[p + 1] := HexDigit(v % 16);
    q := p + 2;
    assert scratch[..q] == old(scratch[..p]) + [HexDigit(v / 16), HexDigit(v % 16)];
  }

  /** BIT_STRING_encode_jer: the number of characters, or -1 for a missing buffer. */
  method EncodeJer(st: BitString, ct: Option<nat>, ilevel: int, minified: bool, cb: Sink<char>) returns (encoded: int)
    requires 0 <= st.unused <= MAX_SHIFT
    modifies cb
    ensures st.present ==> cb.out == old(cb.out) + JerText(st, ct, ilevel, minified)
                           && encoded == |JerText(st, ct, ilevel, minified)|
    ensures !st.present ==> encoded == -1 && cb.out == old(cb.out)
  {
    hide ValueText, Decimal, Indent;
    if !st.present {
      return -1;
    }
    ghost var was := cb.out;
    var before := |cb.out|;
    if ct.Some? {
      DumpHex(st, cb);
    } else {
      PutKey("{", "value", ilevel + 1, minified, cb);
      DumpHex(st, cb);
      PutKey(",", "length", ilevel + 1, minified, cb);
      SizeDigits(BitCount(st));
      cb.Consume(Decimal(BitCount(st)));
      if !minified {
        TextIndent(cb, ilevel);
      }
      cb.Consume("}");
      ghost var a, v := KeyText("{", "value", ilevel + 1, minified), ValueText(st);
      ghost var b, d, c := KeyText(",", "length", ilevel + 1, minified), Decimal(BitCount(st)), CloseText(ilevel, minified);
      assert cb.out == was + a + v + b + d + c;
      FiveParts(was, a, v, b, d, c);
    }
    encoded := |cb.out| - before;
  }

  method PutKey(open: string, key: string, level: int, minified: bool, cb: Sink<char>)
    modifies cb
    ensures cb.out == old(cb.out) + KeyText(open, key, level, minified)
  {
    hide Indent;
    cb.Consume(open);
    if !minified {
      TextIndent(cb, level);
      cb.Consume("\"" + key + "\": ");
    } else {
      cb.Consume("\"" + key + "\":");
    }
  }

  // ----- decoder -----

  /** Result of a reading step; Starved is RC_WMORE. */
  datatype Outcome<+T> = Done(value: T) | Starved | Failed {
    predicate IsFailure() {
      !Done?
    }

    function PropagateFailure<U>(): Outcome<U>
      requires IsFailure()
    {
      if Starved? then Starved else Failed
    }

    function Extract(): T
      requires !IsFailure()
    {
      value
    }
  }

  /** Octets or a number read, and the text left. */
  datatype Read<+T> = Read(value: T, rest: string)

  /** SKIPCHAR: the text after the next c. */
  function Skip(t: string, c: char): (r: Outcome<string>)
    ensures !r.Failed? && (r.Done? ==> |r.value| < |t|)
  {
    if t == "" then Starved else if t[0] == c then Done(t[1..]) else Skip(t[1..], c)
  }

  function Word(t: string, w: string): Outcome<string> {
    if |t| < |w| then Starved else if t[..|w|] != w then Failed else Done(t[|w|..])
  }

  /** A key and its colon, after an opening character. */
  function KeyRead(t: string, open: char, key: string): Outcome<string> {
    var t1 :- Skip(t, open);
    var t2 :- Skip(t1, '"');
    var t3 :- Word(t2, key);
    var t4 :- Skip(t3, '"');
    Skip(t4, ':')
  }

  /** A quoted hexadecimal string. */
  function ValueRead(t: string): Outcome<Read<seq<byte>>> {
    var t1 :- Skip(t, '"');
    var t2 :- Skip(t1, '"');
    Parsed(t1[..|t1| - |t2| - 1], t2)
  }

  function Parsed(hex: string, rest: string): Outcome<Read<seq<byte>>> {
    match HexOctets(hex)
    case Some(data) => Done(Read(data, rest))
    case None => Failed
  }

  predicate IsNumberChar(c: char) {
    IsDigit(c) || c == '-'
  }

  /** The first character of a number at or after i, or the end. */
  function NumberStart(t: string, i: nat): (j: nat)
    requires i <= |t|
    ensures i <= j <= |t|
    decreases |t| - i
  {
    if i == |t| || IsNumberChar(t[i]) then i else NumberStart(t, i + 1)
  }

  /** Where the run of number characters at i ends. */
  function NumberEnd(t: string, i: nat): (j: nat)
    requires i <= |t|
    ensures i <= j <= |t|
    decreases |t| - i
  {
    if i == |t| || !IsNumberChar(t[i]) then i else NumberEnd(t, i + 1)
  }

  function LeadSpaces(t: string, i: nat): (j: nat)
    requires i <= |t|
    ensures i <= j <= |t|
    decreases |t| - i
  {
    if i < |t| && t[i] in "\t\n\r " then LeadSpaces(t, i + 1) else i
  }

  predicate AllDigits(d: string) {
    forall i :: 0 <= i < |d| ==> IsDigit(d[i])
  }

  /**
   * INTEGER_decode_jer on text that ends in a number character: white space, a
   * sign, digits without leading zeros, within the range of a long.
   */
  function Integer(t: string): (v: Option<int>)
    ensures v.Some? ==> -LONG_MAX - 1 <= v.value <= LONG_MAX
  {
    var u := t[LeadSpaces(t, 0)..];
    var negative := u != "" && u[0] == '-';
    var d := if negative then u[1..] else u;
    if d != "" && AllDigits(d) && (|d| > 1 ==> d[0] != '0') then
      var n: int := DecimalValue(d, |d|);
      var v := if negative then -n else n;
      if -LONG_MAX - 1 <= v <= LONG_MAX then Some(v) else None
    else None
  }

  /** The shortest two's complement octets of v, k or more, read without sign. */
  function Unsigned(v: int, k: nat): nat
    requires v >= 0 || 1 <= k <= 8
    requires v >= -LONG_MAX - 1
    decreases 8 - k
  {
    if v >= 0 then v
    else if k == 8 || v + Pow2(8 * k - 1) >= 0 then (v + Pow2(8 * k)) % SIZE_MODULUS
    else Unsigned(v, k + 1)
  }

  function LengthRead(t: string): Outcome<Read<nat>> {
    var i := NumberStart(t, 0);
    if i == |t| then Failed
    else
      match Integer(t[..NumberEnd(t, i)])
      case None => Failed
      case Some(v) => Done(Read(Unsigned(v, 1), t[NumberEnd(t, i)..]))
  }

  function LengthPart(t: string): Outcome<Read<nat>> {
    var t1 :- KeyRead(t, ',', "length");
    var n :- LengthRead(t1);
    var t2 :- Skip(n.rest, '}');
    Done(Read(n.value, t2))
  }

  /** Conversion to int: the number of its range that differs from x by a multiple of 2^32. */
  function ToInt(x: int): (r: int)
    ensures -0x8000_0000 <= r < 0x8000_0000 && (x - r) % 0x1_0000_0000 == 0
  {
    var m := x % 0x1_0000_0000;
    if m < 0x8000_0000 then m else m - 0x1_0000_0000
  }

  datatype Decoded = Decoded(data: seq<byte>, unused: int, rest: string)

  function DecodeText(t: string, ct: Option<nat>): Outcome<Decoded> {
    var t1 :- if ct.None? then KeyRead(t, '{', "value") else Done(t);
    var v :- ValueRead(t1);
    if ct.None? then
      var n :- LengthPart(v.rest);
      Done(Decoded(v.value, ToInt(8 * |v.value| - n.value), n.rest))
    else if 8 * |v.value| < ct.value then Failed
    else Done(Decoded(v.value, ToInt(8 * |v.value| - ct.value), v.rest))
  }

  /** What a step at p says of the text from p on. */
  ghost predicate Agrees(s: string, q: nat, rc: Rc, r: Outcome<string>) {
    match r
    case Done(t) => rc == Ok && q <= |s| && s[q..] == t
    case Starved => rc == WMore
    case Failed => rc == Fail
  }

  method SkipChar(s: string, p: nat, c: char) returns (rc: Rc, q: nat)
    requires p <= |s|
    ensures p <= q <= |s| && Agrees(s, q, rc, Skip(s[p..], c))
  {
    hide Skip;
    q := p;
    while q < |s|
      invariant p <= q <= |s| && Skip(s[p..], c) == Skip(s[q..], c)
    {
      SkipStep(s, q, c);
      if s[q] == c {
        return Ok, q + 1;
      }
      q := q + 1;
    }
    SkipEnd(c);
    rc := WMore;
  }

  lemma SkipStep(s: string, q: nat, c: char)
    requires q < |s|
    ensures Skip(s[q..], c) == if s[q] == c then Done(s[q + 1..]) else Skip(s[q + 1..], c)
  {
    assert s[q..][1..] == s[q + 1..];
  }

  lemma SkipEnd(c: char)
    ensures Skip("", c) == Starved
  {
  }

  /** memcmp with an expected word */
  method MatchWord(s: string, p: nat, w: string) returns (rc: Rc, q: nat)
    requires p <= |s|
    ensures p <= q <= |s| && Agrees(s, q, rc, Word(s[p..], w))
  {
    if |s| - p < |w| {
      return WMore, p;
    }
    assert s[p..p + |w|] == s[p..][..|w|];
    if s[p..p + |w|] != w {
      return Fail, p;
    }
    assert s[p..][|w|..] == s[p + |w|..];
    rc, q := Ok, p + |w|;
  }

  method ReadKey(s: string, p: nat, open: char, key: string) returns (rc: Rc, q: nat)
    requires p <= |s|
    ensures p <= q <= |s| && Agrees(s, q, rc, KeyRead(s[p..], open, key))
  {
    hide Skip, Word;
    rc, q := SkipChar(s, p, open);
    if rc != Ok { return; }
    rc, q := SkipChar(s, q, '"');
    if rc != Ok { return; }
    rc, q := MatchWord(s, q, key);
    if rc != Ok { return; }
    rc, q := SkipChar(s, q, '"');
    if rc != Ok { return; }
    rc, q := SkipChar(s, q, ':');
  }

  const UINT_MODULUS: nat := 0x1_0000_0000

  /** The nibble of a character added to the 32-bit accumulator. */
  lemma Nibbles(clv: nat, hi: nat, lo: nat)
    requires clv % 16 == hi && hi < 16 && lo < 16
    ensures (clv * 16 + lo) % UINT_MODULUS % 256 == 16 * hi + lo
  {
    hide *;
    Residue(clv * 16 + lo);
    assert clv * 16 + lo == 256 * (clv / 16) + (16 * hi + lo);
    Mod256(clv / 16, 16 * hi + lo);
  }

  lemma Nibble(clv: nat, lo: nat)
    requires lo < 16
    ensures (clv * 16 + lo) % UINT_MODULUS % 16 == lo
  {
    var x := clv * 16 + lo;
    Residue(x);
    Mod16(x % UINT_MODULUS);
    Mod16(x);
  }

  lemma Mod256(a: nat, y: nat)
    requires y < 256
    ensures (256 * a + y) % 256 == y
  {
  }

  lemma Mod16(x: nat)
    ensures x % 256 % 16 == x % 16
  {
    var q := x / 256;
    assert x == 16 * (16 * q) + x % 256;
  }

  lemma Residue(x: nat)
    ensures x % UINT_MODULUS % 256 == x % 256
  {
    var k := x / UINT_MODULUS;
    assert x == 256 * (k * 0x100_0000 + x % UINT_MODULUS / 256) + x % UINT_MODULUS % 256;
    Mod256(k * 0x100_0000 + x % UINT_MODULUS / 256, x % UINT_MODULUS % 256);
  }

  /** The digit loop, into a buffer of |hex| / 2 octets and one more. */
  method ParseHex(hex: string, buf: array<byte>) returns (ok: bool, size: nat)
    requires buf.Length == (|hex| + 1) / 2 + 1
    modifies buf
    ensures ok <==> HexOctets(hex).Some?
    ensures ok ==> size == |hex| / 2 < buf.Length && buf[..size] == HexOctets(hex).value && buf[size] == 0
  {
    hide HexValue;
    var p: nat, clv: nat, half: nat, b: nat := 0, 0, 0, 0;
    while p < |hex|
      invariant p <= |hex| && AllHex(hex, p) && half == p % 2 && b == p / 2
      invariant forall i :: 0 <= i < b ==> buf[i] == HexPair(hex, i)
      invariant half == 1 ==> clv % 16 == HexValue(hex[p - 1]).value
    {
      var v := HexValue(hex[p]);
      if v.None? {
        buf[b] := 0;
        return false, 0;
      }
      ghost var was := clv;
      Nibble(was, v.value);
      clv := (clv * 16 + v.value) % UINT_MODULUS;
      if half != 0 {
        Nibbles(was, HexValue(hex[p - 1]).value, v.value);
        half := 0;
        buf[b] := clv % 256;
        b := b + 1;
      } else {
        half := 1;
      }
      p := p + 1;
    }
    if half != 0 {
      return false, 0;
    }
    buf[b] := 0;
    ok, size := true, b;
    assert buf[..b] == HexOctets(hex).value;
  }

  /** The value string: its extent first, then its digits. */
  method ReadValue(s: string, p: nat) returns (rc: Rc, q: nat, block: seq<byte>, size: nat)
    requires p <= |s|
    ensures match ValueRead(s[p..])
            case Done(v) => rc == Ok && q <= |s| && s[q..] == v.rest
                            && size < |block| && block[..size] == v.value && block[size] == 0
            case Starved => rc == WMore
            case Failed => rc == Fail
  {
    hide ValueRead, Skip, HexOctets;
    block, size := [], 0;
    var p0, p1;
    rc, p0, p1 := FindExtent(s, p);
    if rc != Ok { return rc, p, [], 0; }
    var ok;
    ok, block, size := ParseValue(s[p0..p1]);
    if !ok { return Fail, p, [], 0; }
    rc, q := SkipChar(s, p1, '"');
  }

  method FindExtent(s: string, p: nat) returns (rc: Rc, p0: nat, p1: nat)
    requires p <= |s|
    ensures rc == WMore ==> ValueRead(s[p..]) == Starved
    ensures rc == Ok ==> p0 <= p1 < |s| && ValueRead(s[p..]) == Parsed(s[p0..p1], s[p1 + 1..])
    ensures rc == Ok ==> Skip(s[p1..], '"') == Done(s[p1 + 1..])
    ensures rc != Fail
  {
    hide Skip, ValueRead, HexOctets;
    p1 := p;
    rc, p0 := SkipChar(s, p, '"');
    ValueStarves(s[p..]);
    if rc != Ok { return; }
    rc, p1 := SkipChar(s, p0, '"');
    if rc != Ok { return; }
    Extent(s, p, p0, p1);
    p1 := p1 - 1;
  }

  lemma {:induction false} SkipFound(t: string, c: char)
    requires Skip(t, c).Done?
    ensures t[|t| - |Skip(t, c).value| - 1] == c
  {
    if t[0] != c { SkipFound(t[1..], c); }
  }

  lemma ValueStarves(t: string)
    ensures Skip(t, '"').Starved? ==> ValueRead(t) == Starved
    ensures Skip(t, '"').Done? && Skip(Skip(t, '"').value, '"').Starved? ==> ValueRead(t) == Starved
  {
  }

  /** The closing quote is where the second scan, from it, stops again. */
  lemma Extent(s: string, p: nat, p0: nat, p1: nat)
    requires p <= p0 <= p1 <= |s| && Skip(s[p..], '"') == Done(s[p0..]) && Skip(s[p0..], '"') == Done(s[p1..])
    ensures p0 < p1 && ValueRead(s[p..]) == Parsed(s[p0..p1 - 1], s[p1..])
    ensures Skip(s[p1 - 1..], '"') == Done(s[p1..])
  {
    hide Skip, HexOctets;
    var t := s[p0..];
    SkipFound(t, '"');
    assert s[p1 - 1] == t[|t| - |s[p1..]| - 1];
    assert s[p0..p1 - 1] == t[..|t| - |s[p1..]| - 1];
    SkipStep(s, p1 - 1, '"');
  }

  method ParseValue(hex: string) returns (ok: bool, block: seq<byte>, size: nat)
    ensures ok <==> HexOctets(hex).Some?
    ensures ok ==> size < |block| && block[..size] == HexOctets(hex).value && block[size] == 0
  {
    hide HexOctets;
    var buf := new byte[(|hex| + 1) / 2 + 1];
    ok, size := ParseHex(hex, buf);
    block := buf[..];
    assert ok ==> size < buf.Length && block[..size] == buf[..size];
  }

  predicate IsJsonSpace(c: char) {
    c in "\t\n\r " || c as int == 0x0c
  }

  /** The scan for the extent of the length number. */
  method ScanNumber(s: string, p: nat) returns (numbered: bool, q: nat)
    requires p <= |s|
    ensures p <= q <= |s|
    ensures numbered <==> NumberStart(s[p..], 0) < |s[p..]|
    ensures numbered ==> q - p == NumberEnd(s[p..], NumberStart(s[p..], 0))
  {
    ghost var t := s[p..];
    numbered, q := false, p;
    while q < |s|
      invariant p <= q <= |s|
      invariant !numbered ==> NumberStart(t, 0) == NumberStart(t, q - p)
      invariant numbered ==> NumberStart(t, 0) < q - p && NumberEnd(t, NumberStart(t, 0)) == NumberEnd(t, q - p)
    {
      var c := s[q];
      assert c == t[q - p];
      if IsJsonSpace(c) {
        if numbered { return; }
      } else if IsNumberChar(c) {
        numbered := true;
      } else if numbered {
        return;
      }
      q := q + 1;
    }
  }

  /** The length number. */
  method ReadLength(s: string, p: nat) returns (rc: Rc, q: nat, length: nat)
    requires p <= |s|
    ensures match LengthRead(s[p..])
            case Done(n) => rc == Ok && q <= |s| && s[q..] == n.rest && length == n.value
            case Starved => rc == WMore
            case Failed => rc == Fail
  {
    hide NumberStart, NumberEnd, Integer, Unsigned;
    length := 0;
    var numbered;
    numbered, q := ScanNumber(s, p);
    if !numbered { return Fail, p, 0; }
    assert s[p..q] == s[p..][..q - p] && s[q..] == s[p..][q - p..];
    var v := Integer(s[p..q]);
    if v.None? { return Fail, p, 0; }
    rc, length := Ok, Unsigned(v.value, 1);
  }

  method ReadLengthPart(s: string, p: nat) returns (rc: Rc, q: nat, length: nat)
    requires p <= |s|
    ensures match LengthPart(s[p..])
            case Done(n) => rc == Ok && q <= |s| && s[q..] == n.rest && length == n.value
            case Starved => rc == WMore
            case Failed => rc == Fail
  {
    hide KeyRead, LengthRead, Skip;
    length := 0;
    rc, q := ReadKey(s, p, ',', "length");
    if rc != Ok { return; }
    rc, q, length := ReadLength(s, q);
    if rc != Ok { return; }
    rc, q := SkipChar(s, q, '}');
  }

  /** BIT_STRING_decode_jer into the structure st, fresh or not; after a failure it holds whatever was read. */
  method DecodeJer(st: Cell, s: string, ct: Option<nat>) returns (rc: Rc, consumed: nat)
    requires st.Valid()
    modifies st
    ensures match DecodeText(s, ct)
            case Done(d) => rc == Ok && consumed + |d.rest| == |s| && s[consumed..] == d.rest && st.Valid()
                            && st.View() == BitString(true, d.data, d.unused) && st.block[st.size] == 0
            case Starved => rc == WMore && consumed == 0
            case Failed => rc == Fail && consumed == 0
  {
    hide KeyRead, ValueRead, LengthPart, ToInt;
    consumed := 0;
    var p := 0;
    assert s[0..] == s;
    if ct.None? {
      rc, p := ReadKey(s, 0, '{', "value");
      if rc != Ok { return; }
    }
    var block, size;
    rc, p, block, size := ReadValue(s, p);
    if rc != Ok { return; }
    st.present, st.block, st.size := true, block, size;
    if ct.None? {
      var length;
      rc, p, length := ReadLengthPart(s, p);
      if rc != Ok { return; }
      st.unused := ToInt(8 * size - length);
    } else {
      if 8 * size < ct.value {
        return Fail, 0;
      }
      st.unused := ToInt(8 * size - ct.value);
    }
    consumed := p;
  }

  // ----- theorems -----

  lemma {:induction false} SkipOver(gap: string, c: char, rest: string)
    requires c !in gap
    ensures Skip(gap + ([c] + rest), c) == Done(rest)
  {
    var u := [c] + rest;
    if gap == "" {
      assert gap + u == u && u[1..] == rest;
    } else {
      SkipOver(gap[1..], c, rest);
      TailOf(gap, u);
      assert gap[0] in gap;
    }
  }

  lemma TailOf(a: string, b: string)
    requires a != ""
    ensures (a + b)[0] == a[0] && (a + b)[1..] == a[1..] + b
  {
  }

  /** White space the encoder leaves after a key. */
  function After(minified: bool): string {
    if minified then "" else " "
  }

  lemma KeyParts(open: char, key: string, level: int, minified: bool, rest: string)
    ensures var gap := if minified then "" else Indent(level);
            KeyText([open], key, level, minified) + rest
            == [] + ([open] + (gap + (['"'] + (key + ([] + (['"'] + ([] + ([':'] + (After(minified) + rest)))))))))
  {
    hide Indent;
    var gap := if minified then "" else Indent(level);
    assert KeyText([open], key, level, minified) == [open] + gap + ("\"" + key + "\"" + ":" + After(minified));
  }

  /** The decoder takes a key apart. */
  lemma KeyInverse(open: char, key: string, level: int, minified: bool, rest: string)
    ensures KeyRead(KeyText([open], key, level, minified) + rest, open, key) == Done(After(minified) + rest)
  {
    hide Skip, Indent, KeyText;
    KeyParts(open, key, level, minified, rest);
    var gap := if minified then "" else Indent(level);
    var t4 := ['"'] + ([] + ([':'] + (After(minified) + rest)));
    assert NoQuote(gap) by { assert forall i :: 0 <= i < |gap| ==> gap[i] == '\n' || gap[i] == ' '; }
    SkipOver([], open, gap + (['"'] + (key + ([] + t4))));
    SkipOver(gap, '"', key + ([] + t4));
    assert [] + t4 == t4;
    assert (key + t4)[..|key|] == key && (key + t4)[|key|..] == t4;
    SkipOver([], '"', [] + ([':'] + (After(minified) + rest)));
    SkipOver([], ':', After(minified) + rest);
  }

  predicate NoQuote(s: string) {
    '"' !in s
  }

  lemma ValueParts(gap: string, hex: string, rest: string)
    ensures gap + Quoted(hex) + rest == gap + (['"'] + (hex + (['"'] + rest)))
    ensures var t1 := hex + (['"'] + rest); t1[..|t1| - |rest| - 1] == hex
  {
  }

  /** Behind anything without a quote, what stands between two quotes is the value if it is hexadecimal, or else an error. */
  lemma ValueExactly(gap: string, hex: string, rest: string)
    requires '"' !in gap && '"' !in hex
    ensures ValueRead(gap + Quoted(hex) + rest)
         == match HexOctets(hex)
            case Some(data) => Done(Read(data, rest))
            case None => Failed
  {
    hide Skip, HexOctets, Quoted;
    ValueParts(gap, hex, rest);
    SkipOver(gap, '"', hex + (['"'] + rest));
    SkipOver(hex, '"', rest);
  }

  /** The decoder reads the value string back. */
  lemma ValueInverse(gap: string, data: seq<byte>, rest: string)
    requires '"' !in gap
    ensures ValueRead(gap + Quoted(HexText(data)) + rest) == Done(Read(data, rest))
  {
    hide HexText, HexOctets, Quoted, ValueRead;
    assert '"' !in HexText(data);
    ValueExactly(gap, HexText(data), rest);
    HexInverse(data);
  }

  lemma {:induction false} RunOfDigits(t: string, i: nat, j: nat)
    requires i <= j <= |t| && forall k :: i <= k < j ==> IsNumberChar(t[k])
    requires j == |t| || !IsNumberChar(t[j])
    ensures NumberEnd(t, i) == j
    decreases j - i
  {
    if i < j { RunOfDigits(t, i + 1, j); }
  }

  lemma NumberSpan(gap: string, d: string, tail: string)
    requires gap in ["", " "] && d != "" && AllDigits(d) && (tail == "" || !IsNumberChar(tail[0]))
    ensures var t := gap + d + tail;
            && NumberStart(t, 0) == |gap| < |t| && NumberEnd(t, |gap|) == |gap| + |d|
            && t[..|gap| + |d|] == gap + d && t[|gap| + |d|..] == tail
  {
    hide NumberEnd;
    var t := gap + d + tail;
    assert t[..|gap| + |d|] == gap + d && t[|gap| + |d|..] == tail;
    assert forall k :: 0 <= k < |d| ==> t[|gap| + k] == d[k];
    assert forall k :: |gap| <= k < |gap| + |d| ==> t[k] == d[k - |gap|];
    RunOfDigits(t, |gap|, |gap| + |d|);
    assert tail != "" ==> t[|gap| + |d|] == tail[0];
    assert t[|gap|] == d[0];
    if gap == " " {
      assert t[0] == ' ';
      assert NumberStart(t, 1) == 1;
    }
  }

  lemma IntegerInverse(gap: string, n: nat)
    requires gap in ["", " "]
    ensures Integer(gap + Decimal(n)) == if n <= LONG_MAX then Some(n) else None
  {
    hide Decimal, DecimalValue;
    var d, t := Decimal(n), gap + Decimal(n);
    DecimalInverse(n);
    assert t[|gap|] == d[0] && IsDigit(d[0]);
    assert LeadSpaces(t, |gap|) == |gap|;
    assert LeadSpaces(t, 0) == |gap| by { if gap == " " { assert t[0] == ' '; } }
    assert t[|gap|..] == d;
  }

  /** The decoder reads the length back, up to the range of a long. */
  lemma LengthInverse(gap: string, n: nat, tail: string)
    requires gap in ["", " "] && (tail == "" || !IsNumberChar(tail[0]))
    ensures LengthRead(gap + Decimal(n) + tail) == if n <= LONG_MAX then Done(Read(n, tail)) else Failed
  {
    hide Decimal, NumberStart, NumberEnd, Integer;
    NumberSpan(gap, Decimal(n), tail);
    IntegerInverse(gap, n);
  }

  lemma CloseParts(ilevel: int, minified: bool, rest: string)
    ensures var t := CloseText(ilevel, minified) + rest;
            && !IsNumberChar(t[0]) && Skip(t, '}') == Done(rest)
  {
    hide Skip;
    var gap := if minified then "" else Indent(ilevel);
    assert CloseText(ilevel, minified) + rest == gap + (['}'] + rest);
    assert forall i :: 0 <= i < |gap| ==> gap[i] == '\n' || gap[i] == ' ';
    SkipOver(gap, '}', rest);
  }

  lemma LengthPartInverse(n: nat, ilevel: int, minified: bool, rest: string)
    ensures LengthPart(KeyText(",", "length", ilevel + 1, minified) + (Decimal(n) + (CloseText(ilevel, minified) + rest)))
         == if n <= LONG_MAX then Done(Read(n, rest)) else Failed
  {
    hide KeyRead, KeyText, LengthRead, CloseText, Skip, Decimal;
    var tail := CloseText(ilevel, minified) + rest;
    KeyInverse(',', "length", ilevel + 1, minified, Decimal(n) + tail);
    Assoc(After(minified), Decimal(n), tail);
    CloseParts(ilevel, minified, rest);
    LengthInverse(After(minified), n, tail);
  }

  lemma TextParts(a: string, v: string, b: string, d: string, c: string, rest: string)
    ensures a + v + b + d + c + rest == a + (v + (b + (d + (c + rest))))
  {
  }

  /**
   * Any value text and any count in the encoder's layout: the octets it denotes,
   * the count's distance from their bits as an int, or an error for other text or
   * a count beyond a long.
   */
  lemma JerAnyValue(hex: string, n: nat, ilevel: int, minified: bool, rest: string)
    requires '"' !in hex
    ensures DecodeText(KeyText("{", "value", ilevel + 1, minified) + Quoted(hex)
                       + KeyText(",", "length", ilevel + 1, minified) + Decimal(n) + CloseText(ilevel, minified) + rest, None)
         == if HexOctets(hex).Some? && n <= 9223372036854775807
            then Done(Decoded(HexOctets(hex).value, ToInt(8 * |HexOctets(hex).value| - n), rest))
            else Failed
  {
    hide KeyRead, KeyText, ValueRead, LengthPart, CloseText, Decimal, HexOctets, Quoted, ToInt;
    var a, b := KeyText("{", "value", ilevel + 1, minified), KeyText(",", "length", ilevel + 1, minified);
    var v, t2 := Quoted(hex), b + (Decimal(n) + (CloseText(ilevel, minified) + rest));
    TextParts(a, v, b, Decimal(n), CloseText(ilevel, minified), rest);
    KeyInverse('{', "value", ilevel + 1, minified, v + t2);
    Assoc(After(minified), v, t2);
    ValueExactly(After(minified), hex, t2);
    LengthPartInverse(n, ilevel, minified, rest);
  }

  /**
   * JER round trip: any number of octets, minified or indented, whatever follows.
   * The octets come back with their unused bits cleared, as many bits as were
   * encoded, and the whole text is consumed, exactly when there are as many bits as
   * are unused and the printed bit count fits a long; else a wrapped count fails.
   */
  lemma JerRoundTrip(st: BitString, ilevel: int, minified: bool, rest: string)
    requires 0 <= st.unused <= MAX_SHIFT && 8 * |st.data| < SIZE_MODULUS
    ensures DecodeText(JerText(st, None, ilevel, minified) + rest, None)
         == if 0 <= 8 * |st.data| - st.unused <= 9223372036854775807
            then Done(Decoded(Shown(st), st.unused, rest))
            else Failed
  {
    hide KeyText, CloseText, Decimal, HexText, HexOctets, Quoted, MaskOctet, DecodeText;
    HexInverse(Shown(st));
    assert '"' !in HexText(Shown(st));
    CountBack(st);
    JerAnyValue(HexText(Shown(st)), BitCount(st), ilevel, minified, rest);
  }

  /** The printed count as the decoder takes it: the unused bits, or too large for a long. */
  lemma CountBack(st: BitString)
    requires 0 <= st.unused <= MAX_SHIFT && 8 * |st.data| < SIZE_MODULUS
    ensures BitCount(st) <= 9223372036854775807 <==> 0 <= 8 * |st.data| - st.unused <= 9223372036854775807
    ensures BitCount(st) <= 9223372036854775807 ==> ToInt(8 * |st.data| - BitCount(st)) == st.unused
  {
  }

  /** The same holds for the encoder's text with its hexadecimal letters in any mixture of cases. */
  lemma JerMixedCase(st: BitString, hex: string, ilevel: int, minified: bool, rest: string)
    requires 0 <= st.unused <= MAX_SHIFT && 8 * |st.data| < SIZE_MODULUS
    requires SameButCase(hex, HexText(Shown(st)))
    ensures DecodeText(KeyText("{", "value", ilevel + 1, minified) + Quoted(hex)
                       + KeyText(",", "length", ilevel + 1, minified) + Decimal(BitCount(st)) + CloseText(ilevel, minified)
                       + rest, None)
         == if 0 <= 8 * |st.data| - st.unused <= 9223372036854775807
            then Done(Decoded(Shown(st), st.unused, rest))
            else Failed
  {
    hide *;
    HexInverse(Shown(st));
    assert '"' !in HexText(Shown(st));
    CountBack(st);
    MixedCase(hex, Shown(st));
    JerAnyValue(hex, BitCount(st), ilevel, minified, rest);
  }

  /** The decoded value is proper and holds the same bits as the value encoded. */
  lemma JerRoundTripValue(st: BitString, ilevel: int, minified: bool)
    requires HeaderOk(st) && st.present && 8 * |st.data| - st.unused <= LONG_MAX
    ensures var r := DecodeText(JerText(st, None, ilevel, minified), None);
            && r.Done? && r.value.rest == ""
            && var w := BitString(true, r.value.data, r.value.unused);
               WellFormed(w) && UsedBits(w) == UsedBits(st) && (PaddingZero(st) ==> w == st)
  {
    hide JerText, DecodeText, BytesBits, Oer.Masked, Shown;
    JerRoundTrip(st, ilevel, minified, "");
    assert JerText(st, None, ilevel, minified) + "" == JerText(st, None, ilevel, minified);
    Oer.MaskedValue(st);
    Oer.PaddingZeroMeans(st);
  }

  /** Two values have the same text exactly when they have the same octets up to padding and the same bit count. */
  lemma JerCanonical(x: BitString, y: BitString, ilevel: int, minified: bool)
    requires HeaderOk(x) && HeaderOk(y)
    requires 8 * |x.data| - x.unused <= LONG_MAX && 8 * |y.data| - y.unused <= LONG_MAX
    ensures JerText(x, None, ilevel, minified) == JerText(y, None, ilevel, minified)
            <==> Oer.Masked(x.data, x.unused) == Oer.Masked(y.data, y.unused) && x.unused == y.unused
  {
    hide KeyText, CloseText, Decimal, HexText, Quoted, Oer.Masked, Shown, DecodeText;
    JerRoundTrip(x, ilevel, minified, "");
    JerRoundTrip(y, ilevel, minified, "");
  }

  /** Under a fixed size any hexadecimal text of enough octets is a value, whatever stands before its first quote. */
  lemma JerAnyFixed(gap: string, hex: string, ct: nat, rest: string)
    requires '"' !in gap && '"' !in hex
    ensures DecodeText(gap + Quoted(hex) + rest, Some(ct))
         == match HexOctets(hex)
            case None => Failed
            case Some(d) => if 8 * |d| < ct then Failed else Done(Decoded(d, ToInt(8 * |d| - ct), rest))
  {
    hide ValueRead, Quoted, HexOctets, ToInt;
    ValueExactly(gap, hex, rest);
  }

  /**
   * Fixed size: the octets come back with their padding cleared; the bit count is
   * the constraint's, so it is the encoded one exactly for values of that size.
   */
  lemma JerFixedRoundTrip(st: BitString, ct: nat, ilevel: int, minified: bool, rest: string)
    requires 0 <= st.unused <= MAX_SHIFT && 8 * |st.data| < 0x8000_0000
    ensures var r := DecodeText(JerText(st, Some(ct), ilevel, minified) + rest, Some(ct));
            && r == (if 8 * |st.data| < ct then Failed
                     else Done(Decoded(Shown(st), 8 * |st.data| - ct, rest)))
            && (r.Done? && r.value.unused == st.unused <==> ct == 8 * |st.data| - st.unused)
  {
    hide DecodeText, HexText, Quoted, HexOctets, MaskOctet;
    var m := Shown(st);
    HexInverse(m);
    assert '"' !in HexText(m);
    JerAnyFixed("", HexText(m), ct, rest);
    assert "" + Quoted(HexText(m)) + rest == Quoted(HexText(m)) + rest;
  }

  // ----- any input -----

  lemma {:induction false} SkipMissing(t: string, c: char)
    requires c !in t
    ensures Skip(t, c) == Starved
  {
    if t != "" { SkipMissing(t[1..], c); }
  }

  /**
   * A key, whatever stands between its parts: after the opening character and the
   * next quote comes the key itself, and then a quote and a colon.
   */
  lemma KeyExactly(g1: string, g2: string, key: string, g3: string, g4: string, open: char, rest: string)
    requires open !in g1 && '"' !in g2 && '"' !in g3 && ':' !in g4
    ensures KeyRead(g1 + ([open] + (g2 + (['"'] + (key + (g3 + (['"'] + (g4 + ([':'] + rest)))))))), open, key) == Done(rest)
  {
    hide Skip;
    var t4 := ['"'] + (g4 + ([':'] + rest));
    var t3 := g3 + t4;
    SkipOver(g1, open, g2 + (['"'] + (key + t3)));
    SkipOver(g2, '"', key + t3);
    assert (key + t3)[..|key|] == key && (key + t3)[|key|..] == t3;
    SkipOver(g3, '"', g4 + ([':'] + rest));
    SkipOver(g4, ':', rest);
  }

  /** Another word where the key is due is an error, one cut short asks for more, and so does a missing character. */
  lemma KeyFailures(g1: string, g2: string, key: string, u: string, open: char)
    requires open !in g1 && '"' !in g2
    ensures var t := g1 + ([open] + (g2 + (['"'] + u)));
            && KeyRead(g1, open, key) == Starved
            && (open != '"' ==> KeyRead(g1 + ([open] + g2), open, key) == Starved)
            && (|u| < |key| ==> KeyRead(t, open, key) == Starved)
            && (|u| >= |key| && u[..|key|] != key ==> KeyRead(t, open, key) == Failed)
            && (|u| >= |key| && u[..|key|] == key && '"' !in u[|key|..] ==> KeyRead(t, open, key) == Starved)
  {
    hide Skip;
    SkipMissing(g1, open);
    SkipMissing(g2, '"');
    SkipOver(g1, open, g2);
    SkipOver(g1, open, g2 + (['"'] + u));
    SkipOver(g2, '"', u);
    if |u| >= |key| && '"' !in u[|key|..] { SkipMissing(u[|key|..], '"'); }
  }

  /** A value without its closing quote asks for more. */
  lemma ValueOpen(gap: string, hex: string)
    requires '"' !in gap && '"' !in hex
    ensures ValueRead(gap) == Starved && ValueRead(gap + (['"'] + hex)) == Starved
  {
    hide Skip;
    SkipMissing(gap, '"');
    SkipMissing(hex, '"');
    SkipOver(gap, '"', hex);
  }

  predicate NumberChars(s: string) {
    forall i :: 0 <= i < |s| ==> s[i] in "-0123456789"
  }

  predicate NoNumberChars(s: string) {
    forall i :: 0 <= i < |s| ==> s[i] !in "-0123456789"
  }

  lemma IsNumberCharMeans(c: char)
    ensures IsNumberChar(c) <==> c in "-0123456789"
  {
    if IsDigit(c) {
      DigitChars(DigitValue(c));
      DigitBack(c);
    }
  }

  lemma {:induction false} NumberStartAt(t: string, i: nat, j: nat)
    requires i <= j <= |t| && (forall k :: i <= k < j ==> !IsNumberChar(t[k])) && (j == |t| || IsNumberChar(t[j]))
    ensures NumberStart(t, i) == j
    decreases j - i
  {
    if i < j { NumberStartAt(t, i + 1, j); }
  }

  /**
   * The length: what stands before the first digit or minus sign goes to the
   * integer decoder too, the run of them ends the number, and its absence is an error.
   */
  lemma LengthExactly(gap: string, run: string, tail: string)
    requires NoNumberChars(gap) && NumberChars(run) && (tail == "" || tail[0] !in "-0123456789")
    requires run == "" ==> tail == ""
    ensures LengthRead(gap + run + tail)
         == if run == "" then Failed
            else match Integer(gap + run)
                 case None => Failed
                 case Some(v) => Done(Read(Unsigned(v, 1), tail))
  {
    hide NumberStart, NumberEnd, Integer, Unsigned, IsNumberChar;
    var t, i, j := gap + run + tail, |gap|, |gap| + |run|;
    forall k | 0 <= k < |t|
      ensures IsNumberChar(t[k]) <==> t[k] in "-0123456789"
    {
      IsNumberCharMeans(t[k]);
    }
    assert forall k :: 0 <= k < i ==> t[k] == gap[k];
    assert forall k :: i <= k < j ==> t[k] == run[k - i];
    assert tail != "" ==> t[j] == tail[0];
    assert run != "" ==> t[i] == run[0];
    NumberStartAt(t, 0, i);
    RunOfDigits(t, i, j);
    assert t[..j] == gap + run && t[j..] == tail;
  }

  predicate JsonSpaces(s: string) {
    forall i :: 0 <= i < |s| ==> s[i] as int in {9, 10, 13, 32}
  }

  lemma {:induction false} LeadSpacesAt(t: string, i: nat, j: nat)
    requires i <= j <= |t| && (forall k :: i <= k < j ==> t[k] as int in {9, 10, 13, 32})
    requires j == |t| || t[j] as int !in {9, 10, 13, 32}
    ensures LeadSpaces(t, i) == j
    decreases j - i
  {
    if i < j { LeadSpacesAt(t, i + 1, j); }
  }

  /**
   * The integer decoder behind white space: exactly what a number of the range of
   * a long prints as, and a minus sign before 0.
   */
  lemma IntegerExactly(ws: string, u: string, v: int)
    requires JsonSpaces(ws) && (u == "" || u[0] as int !in {9, 10, 13, 32})
    ensures Integer(ws + u) == Some(v) <==>
              && -9223372036854775808 <= v <= 9223372036854775807
              && ((v >= 0 && u == Decimal(v)) || (v <= 0 && u == "-" + Decimal(-v)))
  {
    hide LeadSpaces, Decimal, DecimalValue;
    var t := ws + u;
    assert forall k :: 0 <= k < |ws| ==> t[k] == ws[k];
    assert u != "" ==> t[|ws|] == u[0];
    LeadSpacesAt(t, 0, |ws|);
    assert t[|ws|..] == u;
    var n := if v < 0 then -v else v;
    DecimalInverse(n);
    var d := if u != "" && u[0] == '-' then u[1..] else u;
    NumberText(d, n);
    assert u != "" && u[0] == '-' ==> u == "-" + d;
    assert ("-" + Decimal(n))[1..] == Decimal(n);
    assert Decimal(n)[0] != '-';
  }

  /** Digits without a leading zero of a given value. */
  lemma NumberText(d: string, n: nat)
    ensures d != "" && AllDigits(d) && (|d| > 1 ==> d[0] != '0') ==> (DecimalValue(d, |d|) == n <==> d == Decimal(n))
    ensures d == Decimal(n) ==> d != "" && AllDigits(d) && (|d| > 1 ==> d[0] != '0') && DecimalValue(d, |d|) == n
  {
    hide Decimal, DecimalValue;
    DecimalInverse(n);
    if d != "" && AllDigits(d) && (|d| > 1 ==> d[0] != '0') {
      DecimalOf(d, |d|);
      assert d[..|d|] == d;
    }
  }

  /** A negative length that k octets and no fewer hold comes out above by 2^(8k). */
  lemma UnsignedExactly(v: int, k: nat)
    requires v < 0 && 1 <= k <= 8 && v >= -(Pow2(8 * k - 1) as int) && (k > 1 ==> v < -(Pow2(8 * k - 9) as int))
    requires v >= -9223372036854775808
    ensures Unsigned(v, 1) == v + Pow2(8 * k)
  {
    hide Pow2;
    UnsignedFrom(v, 1, k);
  }

  lemma {:induction false} UnsignedFrom(v: int, j: nat, k: nat)
    requires v < 0 && 1 <= j <= k <= 8 && v >= -(Pow2(8 * k - 1) as int) && (k > 1 ==> v < -(Pow2(8 * k - 9) as int))
    requires v >= -9223372036854775808
    ensures Unsigned(v, j) == v + Pow2(8 * k)
    decreases k - j
  {
    hide Pow2;
    if j < k {
      Oer.PowMono(8 * j - 1, 8 * k - 9);
      UnsignedFrom(v, j + 1, k);
    } else {
      Oer.PowMono(8 * k, 64);
      Oer.Power64();
      DoublePow(8 * k - 1);
    }
  }

  lemma DoublePow(n: nat)
    ensures Pow2(n + 1) == 2 * Pow2(n)
  {
  }

  // ----- the layout in literal characters -----

  /** Four spaces a level. */
  function Spaces(level: int): string {
    seq(if level < 0 then 0 else 4 * level, _ => ' ')
  }

  lemma IndentIs(level: int)
    ensures Indent(level) == "\n" + Spaces(level)
  {
  }

  /** The printed count: the bits in use, or below zero 2^64 more than their difference. */
  lemma CountIs(st: BitString)
    requires 0 <= st.unused <= MAX_SHIFT && 8 * |st.data| < 18446744073709551616
    ensures BitCount(st) == 8 * |st.data| - st.unused + if 8 * |st.data| < st.unused then 18446744073709551616 else 0
  {
  }

  /** Under a fixed size the text is the quoted value alone. */
  lemma JerFixedText(st: BitString, ct: nat, ilevel: int, minified: bool)
    requires 0 <= st.unused
    ensures JerText(st, Some(ct), ilevel, minified) == "\"" + HexText(Shown(st)) + "\""
  {
  }

  /** The minified text. */
  lemma JerMinified(st: BitString, ilevel: int)
    requires 0 <= st.unused
    ensures JerText(st, None, ilevel, true)
         == "{\"value\":\"" + HexText(Shown(st)) + "\",\"length\":" + Decimal(BitCount(st)) + "}"
  {
    hide HexText, Decimal, Shown;
    Pieces("{" + (Quoted("value") + ":"), HexText(Shown(st)), "," + (Quoted("length") + ":"), Decimal(BitCount(st)) + "}");
    assert "{" + (Quoted("value") + ":") + "\"" == "{\"value\":\"";
    assert "\"" + ("," + (Quoted("length") + ":")) == "\",\"length\":";
    var d := Decimal(BitCount(st));
    Assoc(KeyText("{", "value", ilevel + 1, true) + ValueText(st) + KeyText(",", "length", ilevel + 1, true), d, "}");
    Assoc("{\"value\":\"" + HexText(Shown(st)) + "\",\"length\":", d, "}");
  }

  lemma Pieces(a: string, h: string, b: string, c: string)
    ensures a + Quoted(h) + b + c == (a + "\"") + h + ("\"" + b) + c
  {
  }

  /** The indented text: a member a line, one level in, and the brace on a line of its own. */
  lemma JerIndented(st: BitString, ilevel: int)
    requires 0 <= st.unused
    ensures JerText(st, None, ilevel, false)
         == ("{\n" + Spaces(ilevel + 1) + "\"value\": \"") + HexText(Shown(st))
            + ("\",\n" + Spaces(ilevel + 1) + "\"length\": ") + (Decimal(BitCount(st)) + ("\n" + Spaces(ilevel) + "}"))
  {
    hide HexText, Decimal, Shown, Indent, Spaces;
    IndentIs(ilevel + 1);
    IndentIs(ilevel);
    var a, b := KeyText("{", "value", ilevel + 1, false), KeyText(",", "length", ilevel + 1, false);
    var d, c := Decimal(BitCount(st)), CloseText(ilevel, false);
    Pieces(a, HexText(Shown(st)), b, d + c);
    KeyPieces(Spaces(ilevel + 1));
    Assoc(a + ValueText(st) + b, d, c);
  }

  lemma KeyPieces(m: string)
    ensures "{" + ("\n" + m) + (Quoted("value") + ": ") + "\"" == "{\n" + m + "\"value\": \""
    ensures "\"" + ("," + ("\n" + m) + (Quoted("length") + ": ")) == "\",\n" + m + "\"length\": "
  {
  }

  // ----- truncated input -----

  /** How a step that leaves u of t fares on the first k characters of t. */
  function Clip(t: string, u: string, k: nat): Outcome<string>
    requires |u| <= |t|
  {
    if k < |t| - |u| then Starved else if k - (|t| - |u|) <= |u| then Done(u[..k - (|t| - |u|)]) else Failed
  }

  lemma {:induction false} SkipPrefix(t: string, k: nat, c: char)
    requires k <= |t| && Skip(t, c).Done?
    ensures Skip(t[..k], c) == Clip(t, Skip(t, c).value, k)
  {
    if k > 0 {
      assert t[..k][0] == t[0] && t[..k][1..] == t[1..][..k - 1];
      if t[0] != c { SkipPrefix(t[1..], k - 1, c); }
    }
  }

  lemma WordPrefix(t: string, k: nat, w: string)
    requires k <= |t| && Word(t, w).Done?
    ensures Word(t[..k], w) == Clip(t, Word(t, w).value, k)
  {
    if k >= |w| {
      assert t[..k][..|w|] == t[..|w|];
      assert t[..k][|w|..] == t[|w|..][..k - |w|];
    }
  }

  /** Two steps in a row on a prefix. */
  lemma ClipTwice(t: string, u: string, v: string, k: nat)
    requires k <= |t| && |v| <= |u| <= |t|
    ensures k < |t| - |u| ==> Clip(t, v, k) == Clip(t, u, k) == Starved
    ensures k >= |t| - |u| ==> Clip(t, v, k) == Clip(u, v, k - (|t| - |u|)) && Clip(t, u, k) == Done(u[..k - (|t| - |u|)])
  {
  }

  lemma KeyPrefix(t: string, k: nat, open: char, key: string)
    requires k <= |t| && KeyRead(t, open, key).Done?
    ensures |KeyRead(t, open, key).value| <= |t|
    ensures KeyRead(t[..k], open, key) == Clip(t, KeyRead(t, open, key).value, k)
  {
    hide Skip, Word, Clip;
    var t1 := Skip(t, open).value;
    var t2 := Skip(t1, '"').value;
    var t3 := Word(t2, key).value;
    WordShrinks(t2, key);
    var t4 := Skip(t3, '"').value;
    var t5 := Skip(t4, ':').value;
    SkipPrefix(t, k, open);
    ClipTwice(t, t1, t5, k);
    if k >= |t| - |t1| {
      var k1 := k - (|t| - |t1|);
      SkipPrefix(t1, k1, '"');
      ClipTwice(t1, t2, t5, k1);
      if k1 >= |t1| - |t2| {
        var k2 := k1 - (|t1| - |t2|);
        WordPrefix(t2, k2, key);
        ClipTwice(t2, t3, t5, k2);
        if k2 >= |t2| - |t3| {
          var k3 := k2 - (|t2| - |t3|);
          SkipPrefix(t3, k3, '"');
          ClipTwice(t3, t4, t5, k3);
          if k3 >= |t3| - |t4| { SkipPrefix(t4, k3 - (|t3| - |t4|), ':'); }
        }
      }
    }
  }

  lemma WordShrinks(t: string, w: string)
    requires Word(t, w).Done?
    ensures |Word(t, w).value| <= |t|
  {
  }

  lemma ValuePrefix(t: string, k: nat)
    requires k <= |t| && ValueRead(t).Done?
    ensures var r := ValueRead(t).value;
            && |r.rest| <= |t|
            && ValueRead(t[..k]) == (if k < |t| - |r.rest| then Starved
                                     else Done(Read(r.value, r.rest[..k - (|t| - |r.rest|)])))
  {
    hide Skip, HexOctets;
    var t1 := Skip(t, '"').value;
    var t2 := Skip(t1, '"').value;
    SkipPrefix(t, k, '"');
    if k >= |t| - |t1| {
      var k1 := k - (|t| - |t1|);
      SkipPrefix(t1, k1, '"');
      if k1 >= |t1| - |t2| {
        var n := |t1| - |t2| - 1;
        assert t1[..k1][..n] == t1[..n];
      }
    }
  }

  lemma {:induction false} DecimalValueGrows(d: string, i: nat, j: nat)
    requires i <= j <= |d| && AllDigits(d)
    ensures DecimalValue(d, i) <= DecimalValue(d, j)
    decreases j
  {
    if i < j { DecimalValueGrows(d, i, j - 1); }
  }

  /** A length cut off among its digits is still a length, and the last thing there is. */
  lemma DigitsPrefix(gap: string, n: nat, j: nat)
    requires gap in ["", " "] && 0 < j <= |Decimal(n)| && n <= LONG_MAX
    ensures var r := LengthRead(gap + Decimal(n)[..j]); r.Done? && r.value.rest == ""
  {
    hide Decimal, NumberStart, NumberEnd, DecimalValue, Unsigned;
    var d := Decimal(n);
    var p := d[..j];
    DecimalInverse(n);
    DecimalValueGrows(d, j, |d|);
    DecimalPrefix(p, d[j..], j);
    assert p + d[j..] == d;
    assert AllDigits(p);
    NumberSpan(gap, p, "");
    assert gap + p + "" == gap + p;
    DigitsAfterGap(gap, p);
  }

  lemma DigitsAfterGap(gap: string, p: string)
    requires gap in ["", " "] && p != "" && AllDigits(p) && (|p| > 1 ==> p[0] != '0') && DecimalValue(p, |p|) <= LONG_MAX
    ensures Integer(gap + p) == Some(DecimalValue(p, |p|))
  {
    hide DecimalValue;
    var t := gap + p;
    assert t[|gap|] == p[0] && IsDigit(p[0]);
    assert LeadSpaces(t, |gap|) == |gap|;
    assert LeadSpaces(t, 0) == |gap| by { if gap == " " { assert t[0] == ' '; } }
    assert t[|gap|..] == p;
  }

  lemma GapOnly(gap: string)
    requires gap in ["", " "]
    ensures LengthRead(gap) == Failed
  {
    if gap == " " { assert NumberStart(gap, 1) == 1; }
  }

  /** No closing brace comes before the last character. */
  lemma ClosePrefix(ilevel: int, minified: bool, k: nat)
    requires k < |CloseText(ilevel, minified)|
    ensures Skip(CloseText(ilevel, minified)[..k], '}') == Starved
    ensures k > 0 ==> !IsNumberChar(CloseText(ilevel, minified)[0])
  {
    hide Skip, CloseText;
    var c := CloseText(ilevel, minified);
    CloseParts(ilevel, minified, "");
    assert c + "" == c;
    SkipPrefix(c, k, '}');
  }

  /** The length part, cut after k characters: only the lack of any digit is an error. */
  lemma LengthPartPrefix(n: nat, ilevel: int, minified: bool, k: nat)
    requires n <= LONG_MAX
    requires k < |KeyText(",", "length", ilevel + 1, minified) + (Decimal(n) + CloseText(ilevel, minified))|
    ensures var b := KeyText(",", "length", ilevel + 1, minified);
            var t := b + (Decimal(n) + CloseText(ilevel, minified));
            && |b| >= |After(minified)|
            && LengthPart(t[..k]) == if |b| - |After(minified)| <= k <= |b| then Failed else Starved
  {
    hide KeyRead, KeyText, LengthRead, CloseText, Skip, Decimal;
    var b, d, c, gap := KeyText(",", "length", ilevel + 1, minified), Decimal(n), CloseText(ilevel, minified), After(minified);
    var t, u := b + (d + c), gap + (d + c);
    KeyInverse(',', "length", ilevel + 1, minified, d + c);
    KeyPrefix(t, k, ',', "length");
    var at := |b| - |gap|;
    if k >= at {
      LengthPrefix(gap, n, ilevel, minified, k - at);
    }
  }

  lemma LengthPrefix(gap: string, n: nat, ilevel: int, minified: bool, j: nat)
    requires gap in ["", " "] && n <= LONG_MAX && j < |gap + (Decimal(n) + CloseText(ilevel, minified))|
    ensures var u := gap + (Decimal(n) + CloseText(ilevel, minified));
            var r := LengthRead(u[..j]);
            if j <= |gap| then r == Failed else r.Done? && Skip(r.value.rest, '}') == Starved
  {
    hide LengthRead, CloseText, Skip, Decimal;
    var d, c := Decimal(n), CloseText(ilevel, minified);
    var u := gap + (d + c);
    if j <= |gap| {
      assert u[..j] == gap[..j];
      GapOnly(gap[..j]);
    } else if j <= |gap| + |d| {
      assert u[..j] == gap + d[..j - |gap|];
      DigitsPrefix(gap, n, j - |gap|);
      SkipEnd('}');
    } else {
      var m := j - |gap| - |d|;
      assert u[..j] == gap + d + c[..m];
      ClosePrefix(ilevel, minified, m);
      LengthInverse(gap, n, c[..m]);
    }
  }

  /**
   * Input that stops early never decodes. More is asked for, except that a text
   * ending between the colon of the length and its first digit is an error.
   */
  lemma JerTruncated(st: BitString, ilevel: int, minified: bool, k: nat)
    requires HeaderOk(st) && 8 * |st.data| - st.unused <= LONG_MAX && k < |JerText(st, None, ilevel, minified)|
    ensures var before := |KeyText("{", "value", ilevel + 1, minified) + ValueText(st)
                           + KeyText(",", "length", ilevel + 1, minified)|;
            DecodeText(JerText(st, None, ilevel, minified)[..k], None)
            == if before - |After(minified)| <= k <= before then Failed else Starved
  {
    hide KeyRead, KeyText, ValueRead, LengthPart, CloseText, Decimal, HexText, Quoted, Clip, MaskOctet;
    var m, n := Shown(st), BitCount(st);
    var a, b, c := KeyText("{", "value", ilevel + 1, minified), KeyText(",", "length", ilevel + 1, minified), CloseText(ilevel, minified);
    var v, t2 := Quoted(HexText(m)), b + (Decimal(n) + c);
    var t := JerText(st, None, ilevel, minified);
    TextParts(a, v, b, Decimal(n), c, "");
    assert c + "" == c && t + "" == t;
    KeyInverse('{', "value", ilevel + 1, minified, v + t2);
    KeyPrefix(t, k, '{', "value");
    var t1 := After(minified) + (v + t2);
    Assoc(After(minified), v, t2);
    ValueInverse(After(minified), m, t2);
    ClipLength(t, t1, k);
    KeyLonger(",", "length", ilevel + 1, minified);
    if k >= |t| - |t1| {
      var k1 := k - (|t| - |t1|);
      ValuePrefix(t1, k1);
      if k1 >= |t1| - |t2| {
        LengthPartPrefix(n, ilevel, minified, k1 - (|t1| - |t2|));
      }
    }
  }

  lemma KeyLonger(open: string, key: string, level: int, minified: bool)
    ensures |KeyText(open, key, level, minified)| >= |After(minified)|
  {
  }

  lemma ClipLength(t: string, u: string, k: nat)
    requires |u| <= |t| && k <= |t|
    ensures Clip(t, u, k) == if k < |t| - |u| then Starved else Done(u[..k - (|t| - |u|)])
  {
  }
}
