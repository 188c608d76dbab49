/** BIT_STRING_xer.c: the XML encoding rules print a bit string in binary. */
module XerBitString {
  import opened Bits
  import opened BitStr
  import opened Text

  const SCRATCH: nat := 128
  const SCEND: nat := SCRATCH - 10   // the scratch buffer is flushed from here on

  function BitChar(b: bool): char {
    if b then '1' else '0'
  }

  function TextOf(bits: seq<bool>): (s: string)
    ensures |s| == |bits|
  {
    seq(|bits|, i requires 0 <= i < |bits| => BitChar(bits[i]))
  }

  lemma TextChars(bits: seq<bool>)
    ensures forall i :: 0 <= i < |bits| ==> TextOf(bits)[i] == if bits[i] then '1' else '0'
  {
  }

  lemma TextOfConcat(a: seq<bool>, b: seq<bool>)
    ensures TextOf(a + b) == TextOf(a) + TextOf(b)
  {
  }

  // ----- layout -----

  /** What precedes a line. */
  function Gap(ilevel: int, canonical: bool): string {
    if canonical then "" else Indent(ilevel)
  }

  /** Octets between two flushes of the scratch buffer. */
  function Run(canonical: bool): nat {
    if canonical then 15 else 8
  }

  /** The first n octets, a gap before each run of c. */
  function DumpText(d: seq<byte>, n: nat, c: nat, gap: string): string
    requires n <= |d| && c > 0
  {
    if n == 0 then ""
    else DumpText(d, n - 1, c, gap) + (if (n - 1) % c == 0 then gap else "") + TextOf(ByteBits(d[n - 1]))
  }

  /** The part of it handed out when n octets are through the loop. */
  function Sent(d: seq<byte>, n: nat, c: nat, gap: string): string
    requires n <= |d| && c > 0
  {
    if n == 0 then "" else if (n - 1) % c == 0 then DumpText(d, n - 1, c, gap) + gap else Sent(d, n - 1, c, gap)
  }

  /** The part waiting in the scratch buffer. */
  function Waiting(d: seq<byte>, n: nat, c: nat): string
    requires n <= |d| && c > 0
  {
    if n == 0 then ""
    else (if (n - 1) % c == 0 then "" else Waiting(d, n - 1, c)) + TextOf(ByteBits(d[n - 1]))
  }

  lemma {:induction false} SentAndWaiting(d: seq<byte>, n: nat, c: nat, gap: string)
    requires n <= |d| && c > 0
    ensures Sent(d, n, c, gap) + Waiting(d, n, c) == DumpText(d, n, c, gap)
  {
    hide TextOf;
    if n > 0 {
      SentAndWaiting(d, n - 1, c, gap);
      if (n - 1) % c != 0 {
        Assoc(Sent(d, n - 1, c, gap), Waiting(d, n - 1, c), TextOf(ByteBits(d[n - 1])));
      }
    }
  }

  /** Whole octets before the last one, which is special. */
  function Before(st: BitString): nat {
    if st.data == [] then 0 else |st.data| - 1
  }

  /** The used bits of the last octet; none if more than seven are unused. */
  function LastBits(st: BitString): (bits: seq<bool>)
    requires 0 <= st.unused
    ensures |bits| == if st.data == [] || st.unused >= 8 then 0 else 8 - st.unused
  {
    if st.data == [] || st.unused >= 8 then [] else ByteBits(st.data[|st.data| - 1])[..8 - st.unused]
  }

  /**
   * The whole text. A new line due before the last octet comes before the octets
   * still waiting in the scratch buffer.
   */
  function XerText(st: BitString, ilevel: int, canonical: bool): string
    requires 0 <= st.unused
  {
    var n, c, gap := Before(st), Run(canonical), Gap(ilevel, canonical);
    Sent(st.data, n, c, gap) + (if n % 8 == 0 then gap else "") + Waiting(st.data, n, c)
    + TextOf(LastBits(st)) + Gap(ilevel - 1, canonical)
  }

  // ----- encoder -----

  lemma BitPattern(v: byte)
    ensures ByteBits(v) == NatBits(v / 16, 4) + NatBits(v % 16, 4)
  {
    hide NatBits;
    assert Pow2(4) == 16 by { assert Pow2(2) == 4; }
    var h := v / 16;
    assert Shl(h, 1) == 2 * h && Shl(h, 2) == 4 * h && Shl(h, 3) == 8 * h && Shl(h, 4) == 16 * h;
    NatBitsConcat(v / 16, 4, v % 16, 4);
  }

  /** v & (1 << i) */
  lemma {:induction false} BitTest(v: nat, n: nat, i: nat)
    requires i < n
    ensures NatBits(v, n)[n - 1 - i] <==> Shr(v, i) % 2 == 1
  {
    if i > 0 { BitTest(v / 2, n - 1, i - 1); }
  }

  /** Text into the scratch buffer. */
  method Put(scratch: array<char>, p: nat, s: string) returns (q: nat)
    requires p + |s| <= scratch.Length
    modifies scratch
    ensures q == p + |s| && scratch[..q] == old(scratch[..p]) + s
  {
    forall i | 0 <= i < |s| {
      scratch[p + i] := s[i];
    }
    q := p + |s|;
  }

  lemma {:induction false} WaitingLength(d: seq<byte>, n: nat, canonical: bool)
    requires n <= |d|
    ensures |Waiting(d, n, Run(canonical))| == if n == 0 then 0 else 8 * ((n - 1) % Run(canonical) + 1)
  {
    if n > 1 {
      WaitingLength(d, n - 1, canonical);
      RunStep(n - 1, canonical);
    }
  }

  lemma RunStep(n: nat, canonical: bool)
    requires n > 0
    ensures n % Run(canonical) == if (n - 1) % Run(canonical) == Run(canonical) - 1 then 0 else (n - 1) % Run(canonical) + 1
  {
  }

  /** When the loop flushes: after each run of octets, and never past the end of the buffer. */
  lemma FlushWhen(d: seq<byte>, n: nat, canonical: bool)
    requires n <= |d|
    ensures var p := |Waiting(d, n, Run(canonical))|;
            && p <= 120
            && (n > 0 ==> (p >= SCEND || (!canonical && n % 8 == 0) <==> n % Run(canonical) == 0))
  {
    hide Waiting;
    WaitingLength(d, n, canonical);
    if n > 0 { RunStep(n, canonical); }
  }

  /** One octet of the dump loop. */
  method DumpOctet(cb: Sink<char>, scratch: array<char>, p: nat, st: BitString, buf: nat, ilevel: int, canonical: bool,
                   ghost was: string) returns (q: nat)
    requires scratch.Length == SCRATCH && buf < Before(st) && p <= SCRATCH
    requires scratch[..p] == Waiting(st.data, buf, Run(canonical))
    requires cb.out == was + Sent(st.data, buf, Run(canonical), Gap(ilevel, canonical))
    modifies cb, scratch
    ensures q <= SCRATCH && scratch[..q] == Waiting(st.data, buf + 1, Run(canonical))
    ensures cb.out == was + Sent(st.data, buf + 1, Run(canonical), Gap(ilevel, canonical))
  {
    hide Sent, Waiting, DumpText, TextOf, NatBits, Indent;
    ghost var c, gap := Run(canonical), Gap(ilevel, canonical);
    OctetSteps(st.data, buf, c, gap);
    FlushWhen(st.data, buf, canonical);
    Start(st.data, c, gap);
    var v := st.data[buf];
    q := p;
    var nline := if canonical then false else buf % 8 == 0;
    if q >= SCEND || nline {
      Assoc(was, Sent(st.data, buf, c, gap), Waiting(st.data, buf, c));
      SentAndWaiting(st.data, buf, c, gap);
      cb.Consume(scratch[..q]);
      Assoc(was, DumpText(st.data, buf, c, gap), gap);
      q := 0;
      if nline {
        TextIndent(cb, ilevel);
      }
    }
    q := PutPattern(scratch, q, v);
  }

  lemma Start(d: seq<byte>, c: nat, gap: string)
    requires c > 0
    ensures Sent(d, 0, c, gap) == Waiting(d, 0, c) == DumpText(d, 0, c, gap) == ""
  {
  }

  method PutPattern(scratch: array<char>, p: nat, v: byte) returns (q: nat)
    requires p + 8 <= scratch.Length
    modifies scratch
    ensures q == p + 8 && scratch[..q] == old(scratch[..p]) + TextOf(ByteBits(v))
  {
    hide TextOf, NatBits, ByteBits;
    ghost var was := scratch[..p];
    q := Put(scratch, p, TextOf(NatBits(v / 16, 4)));
    q := Put(scratch, q, TextOf(NatBits(v % 16, 4)));
    BitPattern(v);
    TextOfConcat(NatBits(v / 16, 4), NatBits(v % 16, 4));
    Assoc(was, TextOf(NatBits(v / 16, 4)), TextOf(NatBits(v % 16, 4)));
  }

  lemma OctetSteps(d: seq<byte>, n: nat, c: nat, gap: string)
    requires n < |d| && c > 0
    ensures Sent(d, n + 1, c, gap) == if n % c == 0 then DumpText(d, n, c, gap) + gap else Sent(d, n, c, gap)
    ensures Waiting(d, n + 1, c) == (if n % c == 0 then "" else Waiting(d, n, c)) + TextOf(ByteBits(d[n]))
  {
  }

  /** The used bits of the last octet, most significant first. */
  method DumpLast(cb: Sink<char>, scratch: array<char>, st: BitString)
    requires scratch.Length == SCRATCH && 0 <= st.unused && st.data != []
    modifies cb, scratch
    ensures cb.out == old(cb.out) + TextOf(LastBits(st))
  {
    hide TextOf, NatBits;
    var v, p, i := st.data[|st.data| - 1], 0, 7;
    ghost var bits := ByteBits(v);
    while i >= st.unused
      invariant -1 <= i <= 7 && (st.unused <= 8 ==> st.unused - 1 <= i) && (st.unused >= 8 ==> i == 7)
      invariant p == 7 - i && cb.out == old(cb.out)
      invariant forall k :: 0 <= k < p ==> scratch[k] == BitChar(bits[k])
    {
      BitTest(v, 8, i);
      scratch[p] := if Shr(v, i) % 2 == 1 then '1' else '0';
      p := p + 1;
      i := i - 1;
    }
    assert bits[..p] == LastBits(st);
    TextAt(bits[..p], scratch[..p]);
    cb.Consume(scratch[..p]);
  }

  lemma TextAt(bits: seq<bool>, s: string)
    requires |s| == |bits| && forall k :: 0 <= k < |s| ==> s[k] == BitChar(bits[k])
    ensures s == TextOf(bits)
  {
  }

  /** All octets but the last; what waits in the scratch buffer then goes out after a due new line. */
  method DumpWhole(cb: Sink<char>, scratch: array<char>, st: BitString, ilevel: int, canonical: bool)
    requires scratch.Length == SCRATCH && 0 <= st.unused
    modifies cb, scratch
    ensures var n, c, gap := Before(st), Run(canonical), Gap(ilevel, canonical);
            cb.out == old(cb.out) + Sent(st.data, n, c, gap) + (if n % 8 == 0 then gap else "") + Waiting(st.data, n, c)
  {
    hide Sent, Waiting, TextOf, NatBits, Indent;
    ghost var was, c, gap := cb.out, Run(canonical), Gap(ilevel, canonical);
    Start(st.data, c, gap);
    var p, buf, end := 0, 0, |st.data| - 1;
    while buf < end
      invariant 0 <= buf <= Before(st) && 0 <= p <= SCRATCH
      invariant scratch[..p] == Waiting(st.data, buf, c)
      invariant cb.out == was + Sent(st.data, buf, c, gap)
    {
      p := DumpOctet(cb, scratch, p, st, buf, ilevel, canonical, was);
      buf := buf + 1;
    }
    if !canonical && buf % 8 == 0 {
      TextIndent(cb, ilevel);
    }
    cb.Consume(scratch[..p]);
  }

  /** BIT_STRING_encode_xer: the number of characters, or -1 for a missing buffer. */
  method EncodeXer(st: BitString, ilevel: int, canonical: bool, cb: Sink<char>) returns (encoded: int)
    requires 0 <= st.unused
    modifies cb
    ensures st.present ==> cb.out == old(cb.out) + XerText(st, ilevel, canonical)
                           && encoded == |XerText(st, ilevel, canonical)|
    ensures !st.present ==> encoded == -1 && cb.out == old(cb.out)
  {
    hide Sent, Waiting, TextOf, NatBits, Indent;
    if !st.present {
      return -1;
    }
    ghost var was, c, gap, n := cb.out, Run(canonical), Gap(ilevel, canonical), Before(st);
    var before := |cb.out|;
    var scratch := new char[SCRATCH];
    DumpWhole(cb, scratch, st, ilevel, canonical);
    if st.data != [] {
      DumpLast(cb, scratch, st);
    }
    if !canonical {
      TextIndent(cb, ilevel - 1);
    }
    FiveParts(was, Sent(st.data, n, c, gap), if n % 8 == 0 then gap else "", Waiting(st.data, n, c),
              TextOf(LastBits(st)), Gap(ilevel - 1, canonical));
    NoText();
    encoded := |cb.out| - before;
  }

  lemma NoText()
    ensures TextOf([]) == ""
  {
  }

  // ----- theorems -----

  /** s without new lines and spaces. */
  function Erased(s: string): string {
    if s == "" then ""
    else Erased(s[..|s| - 1]) + (if s[|s| - 1] in "\n " then "" else [s[|s| - 1]])
  }

  lemma {:induction false} ErasedConcat(a: string, b: string)
    ensures Erased(a + b) == Erased(a) + Erased(b)
  {
    if b == "" {
      assert a + b == a;
    } else {
      assert (a + b)[..|a + b| - 1] == a + b[..|b| - 1];
      ErasedConcat(a, b[..|b| - 1]);
    }
  }

  lemma {:induction false} ErasedBlank(s: string)
    requires forall i :: 0 <= i < |s| ==> s[i] == '\n' || s[i] == ' '
    ensures Erased(s) == ""
  {
    if s != "" { ErasedBlank(s[..|s| - 1]); }
  }

  predicate IsBinary(s: string) {
    forall i :: 0 <= i < |s| ==> s[i] == '0' || s[i] == '1'
  }

  lemma {:induction false} ErasedSame(s: string)
    requires IsBinary(s)
    ensures Erased(s) == s
  {
    if s != "" { ErasedSame(s[..|s| - 1]); }
  }

  lemma ErasedBits(bits: seq<bool>)
    ensures Erased(TextOf(bits)) == TextOf(bits)
  {
    ErasedSame(TextOf(bits));
  }

  /** The dump without white space is the bits of its octets. */
  lemma {:induction false} ErasedDump(d: seq<byte>, n: nat, c: nat, gap: string)
    requires n <= |d| && c > 0 && Erased(gap) == ""
    ensures Erased(DumpText(d, n, c, gap)) == TextOf(BitsUpTo(d, n))
  {
    hide Erased, TextOf, ByteBits;
    if n == 0 {
      NoText();
      ErasedBlank("");
    } else {
      ErasedDump(d, n - 1, c, gap);
      var g := if (n - 1) % c == 0 then gap else "";
      ErasedBlank("");
      ErasedConcat(DumpText(d, n - 1, c, gap), g);
      ErasedConcat(DumpText(d, n - 1, c, gap) + g, TextOf(ByteBits(d[n - 1])));
      ErasedBits(ByteBits(d[n - 1]));
      TextOfConcat(BitsUpTo(d, n - 1), ByteBits(d[n - 1]));
    }
  }

  /** Where the white space goes does not matter. */
  lemma ErasedOrder(a: string, gap: string, b: string)
    requires Erased(gap) == ""
    ensures Erased(a + gap + b) == Erased(a + b)
  {
    hide Erased;
    ErasedConcat(a + gap, b);
    ErasedConcat(a, gap);
    ErasedConcat(a, b);
  }

  /**
   * The text, canonical or not, at any level, is white space and exactly the used
   * bits of the value, in order.
   */
  lemma XerBits(st: BitString, ilevel: int, canonical: bool)
    requires HeaderOk(st)
    ensures Erased(XerText(st, ilevel, canonical)) == TextOf(UsedBits(st))
  {
    hide Erased, TextOf, Sent, Waiting, DumpText, Indent, BitsUpTo, LastBits;
    var n, c, gap := Before(st), Run(canonical), Gap(ilevel, canonical);
    ErasedBlank("");
    ErasedBlank(Indent(ilevel));
    ErasedBlank(Indent(ilevel - 1));
    var g := if n % 8 == 0 then gap else "";
    var s, w, l := Sent(st.data, n, c, gap), Waiting(st.data, n, c), TextOf(LastBits(st));
    ErasedOrder(s, g, w);
    SentAndWaiting(st.data, n, c, gap);
    ErasedDump(st.data, n, c, gap);
    ErasedConcat(s + g + w, l);
    ErasedBits(LastBits(st));
    ErasedConcat(s + g + w + l, Gap(ilevel - 1, canonical));
    UsedParts(st);
    TextOfConcat(BitsUpTo(st.data, n), LastBits(st));
  }

  lemma UsedParts(st: BitString)
    requires HeaderOk(st)
    ensures BitsUpTo(st.data, Before(st)) + LastBits(st) == UsedBits(st)
  {
  }

  /** Canonical text is the bits themselves. */
  lemma XerCanonical(st: BitString, ilevel: int)
    requires HeaderOk(st)
    ensures XerText(st, ilevel, true) == TextOf(UsedBits(st))
    ensures forall i :: 0 <= i < |UsedBits(st)| ==> TextOf(UsedBits(st))[i] == if UsedBits(st)[i] then '1' else '0'
  {
    hide Erased, Sent, Waiting, TextOf;
    XerBits(st, ilevel, true);
    TextChars(UsedBits(st));
    var n := Before(st);
    SentAndWaiting(st.data, n, 15, "");
    DumpBinary(st.data, n, 15);
    var s, w := Sent(st.data, n, 15, ""), Waiting(st.data, n, 15);
    assert s + "" + w == DumpText(st.data, n, 15, "");
    Binary(LastBits(st));
    ErasedSame(XerText(st, ilevel, true));
  }

  lemma Binary(bits: seq<bool>)
    ensures IsBinary(TextOf(bits))
  {
  }

  lemma {:induction false} DumpBinary(d: seq<byte>, n: nat, c: nat)
    requires n <= |d| && c > 0
    ensures IsBinary(DumpText(d, n, c, ""))
  {
    hide TextOf, ByteBits;
    if n > 0 {
      DumpBinary(d, n - 1, c);
      Binary(ByteBits(d[n - 1]));
      assert DumpText(d, n, c, "") == DumpText(d, n - 1, c, "") + TextOf(ByteBits(d[n - 1]));
    }
  }

  // ----- where the line breaks go -----

  /** The layout with every due line break before the octets of its line. */
  function InLines(st: BitString, ilevel: int, canonical: bool): string
    requires 0 <= st.unused
  {
    var n, gap := Before(st), Gap(ilevel, canonical);
    DumpText(st.data, n, Run(canonical), gap) + (if n % 8 == 0 then gap else "")
    + TextOf(LastBits(st)) + Gap(ilevel - 1, canonical)
  }

  /**
   * The text is laid out in lines exactly when it is canonical, or whole octets do
   * not end a line just before the last one.
   */
  lemma InLinesExactly(st: BitString, ilevel: int, canonical: bool)
    requires 0 <= st.unused
    ensures XerText(st, ilevel, canonical) == InLines(st, ilevel, canonical)
            <==> (canonical || Before(st) == 0 || Before(st) % 8 != 0)
  {
    hide Sent, Waiting, DumpText, TextOf, Indent, LastBits;
    var n, c, gap := Before(st), Run(canonical), Gap(ilevel, canonical);
    var s, w := Sent(st.data, n, c, gap), Waiting(st.data, n, c);
    var l, e := TextOf(LastBits(st)), Gap(ilevel - 1, canonical);
    SentAndWaiting(st.data, n, c, gap);
    WaitingLength(st.data, n, canonical);
    if canonical || n % 8 != 0 {
      assert s + "" + w == s + w && s + w + "" == s + w;
    } else if n == 0 {
      Start(st.data, c, gap);
    } else {
      WaitingDigits(st.data, n, c);
      IndentBreaks(ilevel);
      BreakFirst(s, gap, w, l, e);
    }
  }

  lemma WaitingDigits(d: seq<byte>, n: nat, c: nat)
    requires 0 < n <= |d| && c > 0
    ensures Waiting(d, n, c) != "" && IsBinary(Waiting(d, n, c))
  {
    hide ByteBits;
    if n > 1 { WaitingDigits(d, n - 1, c); }
    Binary(ByteBits(d[n - 1]));
  }

  lemma IndentBreaks(level: int)
    ensures Indent(level) != "" && Indent(level)[0] == '\n'
  {
  }

  lemma BreakFirst(s: string, gap: string, w: string, l: string, e: string)
    requires gap != "" && gap[0] == '\n' && w != "" && IsBinary(w)
    ensures s + gap + w + l + e != s + w + gap + l + e
  {
    var x, y := s + gap + w + l + e, s + w + gap + l + e;
    assert x[|s|] == '\n' && y[|s|] == w[0];
  }

  lemma LineStart(d: seq<byte>, n: nat, gap: string)
    requires 8 <= n <= |d| && n % 8 == 0
    ensures Sent(d, n, 8, gap) == DumpText(d, n - 8, 8, gap) + gap
    ensures Waiting(d, n, 8) == TextOf(BytesBits(d[n - 8..n]))
  {
    hide ByteBits, TextOf, BytesBits;
    LineGrows(d, n - 8, 8, gap);
  }

  lemma {:induction false} LineGrows(d: seq<byte>, from: nat, k: nat, gap: string)
    requires from % 8 == 0 && 1 <= k <= 8 && from + k <= |d|
    ensures Sent(d, from + k, 8, gap) == DumpText(d, from, 8, gap) + gap
    ensures Waiting(d, from + k, 8) == TextOf(BytesBits(d[from..from + k]))
  {
    hide ByteBits, TextOf, BytesBits, DumpText;
    var last := d[from + k - 1];
    assert d[from..from + k] == d[from..from + k - 1] + [last];
    BytesBitsConcat(d[from..from + k - 1], [last]);
    SingleByte(last);
    TextOfConcat(BytesBits(d[from..from + k - 1]), ByteBits(last));
    assert (from + k - 1) % 8 == k - 1;
    if k == 1 {
      NothingThere();
      NoText();
      assert d[from..from] == [] && "" + TextOf(ByteBits(last)) == TextOf(ByteBits(last));
    } else {
      LineGrows(d, from, k - 1, gap);
    }
  }

  /** A line: a break and up to eight octets. */
  lemma DumpLine(d: seq<byte>, start: nat, k: nat, gap: string)
    requires start % 8 == 0 && 1 <= k <= 8 && start + k <= |d|
    ensures DumpText(d, start + k, 8, gap) == DumpText(d, start, 8, gap) + gap + TextOf(BytesBits(d[start..start + k]))
    ensures DumpText(d, 0, 8, gap) == ""
  {
    hide Sent, Waiting, DumpText, TextOf, BytesBits;
    LineGrows(d, start, k, gap);
    SentAndWaiting(d, start + k, 8, gap);
    Start(d, 8, gap);
  }

  /** A break at a level: a new line and four spaces a level. */
  function Break(level: int): string {
    "\n" + seq(if level < 0 then 0 else 4 * level, _ => ' ')
  }

  lemma Breaks4(level: int)
    ensures Indent(level) == Break(level)
  {
  }

  /** The indented text unless whole octets end a line just before the last one: the lines, the last octet, a break one level up. */
  lemma XerLayout(st: BitString, ilevel: int)
    requires 0 <= st.unused && (|st.data| <= 1 || (|st.data| - 1) % 8 != 0)
    ensures XerText(st, ilevel, false)
         == (if |st.data| <= 1 then Break(ilevel) else DumpText(st.data, |st.data| - 1, 8, Break(ilevel)))
            + TextOf(LastBits(st)) + Break(ilevel - 1)
  {
    hide Sent, Waiting, TextOf, LastBits, DumpText, Break, Indent, XerText;
    var gap, l, e := Indent(ilevel), TextOf(LastBits(st)), Indent(ilevel - 1);
    InLinesExactly(st, ilevel, false);
    Start(st.data, 8, gap);
    Breaks4(ilevel);
    Breaks4(ilevel - 1);
    NoFirst(gap, DumpText(st.data, Before(st), 8, gap));
  }

  lemma NoFirst(gap: string, d: string)
    ensures "" + gap == gap && d + "" == d
  {
  }

  /** In the other case the last full line follows two breaks, and the last octet follows that line at once. */
  lemma LastLineAfterTwoBreaks(st: BitString, ilevel: int)
    requires 0 <= st.unused && Before(st) > 0 && Before(st) % 8 == 0
    ensures var n, gap := Before(st), Indent(ilevel);
            XerText(st, ilevel, false)
            == DumpText(st.data, n - 8, 8, gap) + gap + gap + TextOf(BytesBits(st.data[n - 8..n]))
               + TextOf(LastBits(st)) + Indent(ilevel - 1)
  {
    hide Sent, Waiting, DumpText, TextOf, Indent, LastBits, BytesBits;
    LineStart(st.data, Before(st), Indent(ilevel));
  }

  /** Nine octets: two breaks, seventy-two digits, a break. */
  lemma NineOctets(data: seq<byte>)
    requires |data| == 9
    ensures var st := BitString(true, data, 0);
            && XerText(st, 0, false) == "\n" + "\n" + TextOf(BytesBits(data)) + "\n"
            && InLines(st, 0, false) == "\n" + TextOf(BytesBits(data[..8])) + "\n" + TextOf(ByteBits(data[8])) + "\n"
  {
    hide Sent, Waiting, TextOf, BytesBits, ByteBits, DumpText, LastBits;
    var st := BitString(true, data, 0);
    LastLineAfterTwoBreaks(st, 0);
    LineStart(data, 8, "\n");
    SentAndWaiting(data, 8, 8, "\n");
    Start(data, 8, "\n");
    Breaks();
    WholeLast(data);
    SingleByte(data[8]);
    BytesBitsConcat(data[..8], [data[8]]);
    assert data == data[..8] + [data[8]];
    TextOfConcat(BytesBits(data[..8]), ByteBits(data[8]));
    assert data[0..8] == data[..8] && "" + "\n" == "\n";
    var x, y := TextOf(BytesBits(data[..8])), TextOf(ByteBits(data[8]));
    assert "\n" + "\n" + x + y + "\n" == "\n" + "\n" + (x + y) + "\n";
  }

  lemma WholeLast(data: seq<byte>)
    requires data != []
    ensures LastBits(BitString(true, data, 0)) == ByteBits(data[|data| - 1])
  {
  }

  lemma Breaks()
    ensures Indent(0) == "\n" && Indent(-1) == "\n"
  {
    assert Margin(0) == "";
  }
}
