/** BuildRunName.h: the RAN name of an E2 node, the key of the peer registry. */
module RanName {
  import opened Bits
  import opened Text

  const NUL: char := 0 as char
  const PLMN_SIZE: nat := 20      // the buffer size given to snprintf for the PLMN part
  const BUFFER_SIZE: nat := 256

  // ----- names as text -----

  datatype Kind =
    | Gnb | EnGnb
    | NgEnbMacro | NgEnbShortMacro | NgEnbLongMacro
    | EnbMacro | EnbHome | EnbShortMacro | EnbLongMacro

  /**
   * A GlobalE2node_ID: the kind, three PLMN octets and the identity octets. Only
   * the gNB kinds can lack an identity the code knows.
   */
  datatype NodeId = NodeId(kind: Kind, plmn: seq<byte>, id: Option<seq<byte>>) | Nothing

  predicate ValidId(n: NodeId) {
    n.NodeId? ==> |n.plmn| == 3 && (n.id.None? ==> n.kind.Gnb? || n.kind.EnGnb?)
  }

  function Prefix(k: Kind): string {
    match k
    case Gnb => "gnb:"
    case EnGnb => "en-gnb:"
    case NgEnbMacro => "ng-enB-macro:"
    case NgEnbShortMacro => "ng-enB-shortmacro:"
    case NgEnbLongMacro => "ng-enB-longmacro:"
    case EnbMacro => "enB-macro:"
    case EnbHome => "enB-home:"
    case EnbShortMacro => "enB-shortmacro:"
    case EnbLongMacro => "enB-longmacro:"
  }

  /** The digits of a PLMN identity; a nibble above 9 prints as two digits. */
  function PlmnText(plmn: seq<byte>): string
    requires |plmn| == 3
  {
    Decimal(plmn[0] % 16) + Decimal(plmn[0] / 16) + Decimal(plmn[1] % 16) + "-"
    + (if plmn[1] / 16 != 15 then Decimal(plmn[2] % 16) + Decimal(plmn[2] / 16) + Decimal(plmn[1] / 16)
       else "0" + Decimal(plmn[2] % 16) + Decimal(plmn[2] / 16))
  }

  /** What snprintf leaves of a text in a buffer of n characters. */
  function Truncated(s: string, n: nat): (t: string)
    requires n > 0
    ensures |t| < n && t <= s
  {
    if |s| < n then s else s[..n - 1]
  }

  function HexChar(v: nat): (c: char)
    requires v < 16
    ensures c != '-' && c != NUL
  {
    if v < 10 then DigitChar(v) else ('a' as int + (v - 10)) as char
  }

  function HexText(data: seq<byte>, n: nat): (s: string)
    requires n <= |data|
    ensures |s| == 2 * n && forall i :: 0 <= i < |s| ==> s[i] != '-' && s[i] != NUL
  {
    if n == 0 then "" else HexText(data, n - 1) + [HexChar(data[n - 1] / 16), HexChar(data[n - 1] % 16)]
  }

  function PlmnPart(n: NodeId): (s: string)
    requires ValidId(n) && n.NodeId?
    ensures |s| < PLMN_SIZE
  {
    Truncated(Prefix(n.kind) + PlmnText(n.plmn), PLMN_SIZE)
  }

  function IdPart(n: NodeId): string
    requires n.NodeId?
  {
    if n.id.None? then "" else "-" + HexText(n.id.value, |n.id.value|)
  }

  function Name(n: NodeId): string
    requires ValidId(n) && n.NodeId?
  {
    PlmnPart(n) + IdPart(n)
  }

  // ----- names in a character buffer -----

  /** The C string a buffer holds. */
  function CString(a: seq<char>): (s: string)
    ensures |s| <= |a| && s == a[..|s|] && (forall i :: 0 <= i < |s| ==> s[i] != NUL)
    ensures |s| < |a| ==> a[|s|] == NUL
  {
    if a == [] || a[0] == NUL then [] else [a[0]] + CString(a[1..])
  }

  /** The buffer is the string s and zeros. */
  ghost predicate HoldsName(a: seq<char>, s: string) {
    && |s| < |a| && a[..|s|] == s
    && (forall i :: 0 <= i < |s| ==> s[i] != NUL)
    && forall i :: |s| <= i < |a| ==> a[i] == NUL
  }

  lemma {:induction false} CStringIs(a: seq<char>, s: string)
    requires |s| < |a| && a[..|s|] == s && a[|s|] == NUL && forall i :: 0 <= i < |s| ==> s[i] != NUL
    ensures CString(a) == s
  {
    if s != "" {
      assert a[0] == s[0];
      assert a[1..][..|s| - 1] == s[1..];
      CStringIs(a[1..], s[1..]);
      assert s == [s[0]] + s[1..];
    }
  }

  /** snprintf of a text without zeros: the length it would like to write. */
  method Snprintf(dst: array<char>, size: nat, text: string) returns (j: nat)
    requires 0 < size <= dst.Length && forall i :: 0 <= i < |text| ==> text[i] != NUL
    modifies dst
    ensures j == |text| && |Truncated(text, size)| < size
    ensures dst[..|Truncated(text, size)|] == Truncated(text, size) && dst[|Truncated(text, size)|] == NUL
    ensures forall k :: |Truncated(text, size)| < k < dst.Length ==> dst[k] == old(dst[k])
  {
    var t := Truncated(text, size);
    forall i | 0 <= i < |t| {
      dst[i] := t[i];
    }
    dst[|t|] := NUL;
    j := |text|;
  }

  /** memcpy */
  method Memcpy(dst: array<char>, src: array<char>, n: nat)
    requires n <= dst.Length && n <= src.Length && dst != src
    modifies dst
    ensures dst[..n] == src[..n] && forall k :: n <= k < dst.Length ==> dst[k] == old(dst[k])
  {
    forall i | 0 <= i < n {
      dst[i] := src[i];
    }
  }

  lemma PlmnPrintable(plmn: seq<byte>)
    requires |plmn| == 3
    ensures forall i :: 0 <= i < |PlmnText(plmn)| ==> PlmnText(plmn)[i] != NUL
    ensures |PlmnText(plmn)| >= 7
  {
    hide Decimal;
  }

  lemma PrefixPrintable(k: Kind)
    ensures forall i :: 0 <= i < |Prefix(k)| ==> Prefix(k)[i] != NUL
    ensures 4 <= |Prefix(k)| <= 18
  {
  }

  /** translatePlmnId, into a zeroed buffer. */
  method TranslatePlmnId(ranName: array<char>, plmn: seq<byte>, kind: Kind) returns (j: nat)
    requires |plmn| == 3 && PLMN_SIZE < ranName.Length && forall i :: 0 <= i < ranName.Length ==> ranName[i] == NUL
    modifies ranName
    ensures HoldsName(ranName[..], Truncated(Prefix(kind) + PlmnText(plmn), PLMN_SIZE))
    ensures j == |Prefix(kind) + PlmnText(plmn)|
  {
    hide Prefix, PlmnText;
    PlmnPrintable(plmn);
    PrefixPrintable(kind);
    j := Snprintf(ranName, PLMN_SIZE, Prefix(kind) + PlmnText(plmn));
  }

  /** One more piece of text through the scratch buffer: "%s" and the piece, then memcpy without the zero. */
  method AppendPiece(ranName: array<char>, buffer: array<char>, piece: string, ghost was: string) returns (j: nat)
    requires buffer.Length == BUFFER_SIZE && buffer != ranName && HoldsName(ranName[..], was)
    requires |was| + |piece| < ranName.Length && |was| + |piece| < BUFFER_SIZE
    requires forall i :: 0 <= i < |piece| ==> piece[i] != NUL
    modifies ranName, buffer
    ensures j == |was + piece| && HoldsName(ranName[..], was + piece)
  {
    CStringIs(ranName[..], was);
    j := Snprintf(buffer, BUFFER_SIZE, CString(ranName[..]) + piece);
    Memcpy(ranName, buffer, j);
  }

  /** translateBitStringToChar: a dash and two digits an octet; unused bits are not looked at. */
  method TranslateBitStringToChar(ranName: array<char>, data: seq<byte>, ghost was: string) returns (j: nat)
    requires HoldsName(ranName[..], was)
    requires |was| + 1 + 2 * |data| < ranName.Length && |was| + 1 + 2 * |data| < BUFFER_SIZE
    modifies ranName
    ensures HoldsName(ranName[..], was + ("-" + HexText(data, |data|)))
    ensures j == |was| + 1 + 2 * |data|
  {
    hide HoldsName, HexChar;
    var buffer := new char[BUFFER_SIZE](_ => NUL);
    j := AppendPiece(ranName, buffer, "-", was);
    assert was + "-" == was + ("-" + HexText(data, 0));
    for i := 0 to |data|
      invariant HoldsName(ranName[..], was + ("-" + HexText(data, i))) && j == |was| + 1 + 2 * i
    {
      ghost var s := was + ("-" + HexText(data, i));
      var b1 := data[i] / 16;
      j := AppendPiece(ranName, buffer, [HexChar(b1)], s);
      var b2 := data[i] % 16;
      j := AppendPiece(ranName, buffer, [HexChar(b2)], s + [HexChar(b1)]);
      OneMoreOctet(was, "-", HexText(data, i), HexChar(b1), HexChar(b2));
    }
  }

  lemma OneMoreOctet(was: string, dash: string, hex: string, c: char, d: char)
    ensures was + (dash + hex) + [c] + [d] == was + (dash + (hex + [c, d]))
  {
  }

  const MAX_ENODB_NAME_SIZE: nat := 64

  /** The name and its final zero fit the name field; up to 21 identity octets always do. */
  predicate Fits(n: NodeId) {
    ValidId(n) && (n.NodeId? ==> |Name(n)| < MAX_ENODB_NAME_SIZE)
  }

  lemma OctetsFit(n: NodeId)
    requires n.NodeId? && |n.plmn| == 3 && (n.id.Some? || n.kind.Gnb? || n.kind.EnGnb?)
    requires n.id.Some? ==> |n.id.value| <= 21
    ensures Fits(n)
  {
    hide PlmnPart, HexText;
  }

  /**
   * buildRanName, into a zeroed name field that has room for the name. An identity
   * without choice leaves the field empty.
   */
  method BuildRanName(ranName: array<char>, n: NodeId) returns (rc: int)
    requires ranName.Length == MAX_ENODB_NAME_SIZE && forall i :: 0 <= i < ranName.Length ==> ranName[i] == NUL
    requires Fits(n)
    modifies ranName
    ensures rc == (if n.Nothing? then -1 else 0)
    ensures rc == 0 ==> HoldsName(ranName[..], Name(n))
    ensures rc != 0 ==> HoldsName(ranName[..], "")
  {
    hide Prefix, PlmnText, HexText;
    if n.Nothing? {
      return -1;
    }
    var j := TranslatePlmnId(ranName, n.plmn, n.kind);
    assert PlmnPart(n) + "" == PlmnPart(n);
    assert |Name(n)| == |PlmnPart(n)| + |IdPart(n)|;
    if n.id.Some? {
      j := TranslateBitStringToChar(ranName, n.id.value, PlmnPart(n));
    }
    rc := 0;
  }

  // ----- theorems -----

  /** The prefix of its kind starts every name: the PLMN buffer cuts digits only. */
  lemma NameStarts(n: NodeId)
    requires ValidId(n) && n.NodeId?
    ensures Prefix(n.kind) <= Name(n)
  {
    hide PlmnText, Prefix, HexText;
    PrefixPrintable(n.kind);
    assert Prefix(n.kind) <= PlmnPart(n);
  }

  /** The hexadecimal digits are those from 0 to f, in order. */
  lemma HexChars(v: nat)
    requires v < 16
    ensures HexChar(v) == "0123456789abcdef"[v]
  {
    if v < 10 {
      DigitChars(v);
      assert "0123456789abcdef"[v] == "0123456789"[v];
    }
  }

  lemma {:induction false} HexTextAt(data: seq<byte>, n: nat, i: nat)
    requires i < n <= |data|
    ensures HexText(data, n)[2 * i] == "0123456789abcdef"[data[i] / 16]
    ensures HexText(data, n)[2 * i + 1] == "0123456789abcdef"[data[i] % 16]
  {
    hide HexChar;
    if i < n - 1 {
      HexTextAt(data, n - 1, i);
    } else {
      HexChars(data[i] / 16);
      HexChars(data[i] % 16);
    }
  }

  /** The end of a name: a dash and the octets of the identity, each as its high and its low digit. */
  lemma IdentityDigits(n: NodeId)
    requires ValidId(n) && n.NodeId? && n.id.Some?
    ensures var data, s := n.id.value, Name(n);
            var k := |s| - 2 * |data|;
            && k >= 5 && s[k - 1] == '-'
            && forall i :: 0 <= i < |data| ==>
                 && s[k + 2 * i] == "0123456789abcdef"[data[i] / 16]
                 && s[k + 2 * i + 1] == "0123456789abcdef"[data[i] % 16]
  {
    hide PlmnPart, HexText;
    var data, s := n.id.value, Name(n);
    var k := |s| - 2 * |data|;
    PartLength(n);
    assert k == |PlmnPart(n)| + 1;
    forall i | 0 <= i < |data|
      ensures s[k + 2 * i] == "0123456789abcdef"[data[i] / 16] && s[k + 2 * i + 1] == "0123456789abcdef"[data[i] % 16]
    {
      HexTextAt(data, |data|, i);
      assert s[k + 2 * i] == HexText(data, |data|)[2 * i] && s[k + 2 * i + 1] == HexText(data, |data|)[2 * i + 1];
    }
  }

  lemma PartLength(n: NodeId)
    requires ValidId(n) && n.NodeId?
    ensures |PlmnPart(n)| >= 4
  {
    hide PlmnText, Prefix;
    PrefixPrintable(n.kind);
  }

  /** The beginning of a name: what its kind is called, then the PLMN, cut to nineteen characters in all. */
  lemma NameBegins(n: NodeId)
    requires ValidId(n) && n.NodeId?
    ensures var s := (match n.kind
                      case Gnb => "gnb:"
                      case EnGnb => "en-gnb:"
                      case NgEnbMacro => "ng-enB-macro:"
                      case NgEnbShortMacro => "ng-enB-shortmacro:"
                      case NgEnbLongMacro => "ng-enB-longmacro:"
                      case EnbMacro => "enB-macro:"
                      case EnbHome => "enB-home:"
                      case EnbShortMacro => "enB-shortmacro:"
                      case EnbLongMacro => "enB-longmacro:") + PlmnText(n.plmn);
            && (if |s| <= 19 then s else s[..19]) <= Name(n)
            && (n.id.None? ==> Name(n) == if |s| <= 19 then s else s[..19])
            && (n.id.Some? ==> |Name(n)| == (if |s| <= 19 then |s| else 19) + 1 + 2 * |n.id.value|)
  {
    hide PlmnText, HexText;
  }

  /** A nibble in decimal, 10 to 15 as two digits. */
  lemma NibbleText(v: nat)
    requires v < 16
    ensures Decimal(v) == ["0", "1", "2", "3", "4", "5", "6", "7", "8", "9", "10", "11", "12", "13", "14", "15"][v]
  {
    var d := "0123456789";
    assert Decimal(v % 10) == [DigitChar(v % 10)];
    DigitChars(v % 10);
    assert v >= 10 ==> Decimal(1) == [DigitChar(1)] && DigitChar(1) == '1';
  }

  /** The PLMN: the nibbles of the country code, a dash and those of the network code, a 0 first if the octets hold 15 for its third. */
  lemma PlmnNibbles(p: seq<byte>)
    requires |p| == 3
    ensures var t := ["0", "1", "2", "3", "4", "5", "6", "7", "8", "9", "10", "11", "12", "13", "14", "15"];
            PlmnText(p) == t[p[0] % 16] + t[p[0] / 16] + t[p[1] % 16] + "-"
                           + if p[1] / 16 == 15 then "0" + t[p[2] % 16] + t[p[2] / 16]
                             else t[p[2] % 16] + t[p[2] / 16] + t[p[1] / 16]
  {
    hide Decimal;
    NibbleText(p[0] % 16);
    NibbleText(p[0] / 16);
    NibbleText(p[1] % 16);
    NibbleText(p[1] / 16);
    NibbleText(p[2] % 16);
    NibbleText(p[2] / 16);
  }

  /** A gNB of country 208, network 92 and identity b5 c6 77 88. */
  lemma SampleName()
    ensures Name(NodeId(Gnb, [0x02, 0xF8, 0x29], Some([0xB5, 0xC6, 0x77, 0x88]))) == "gnb:208-092-b5c67788"
  {
    hide PlmnText, HexText;
    var n := NodeId(Gnb, [0x02, 0xF8, 0x29], Some([0xB5, 0xC6, 0x77, 0x88]));
    PlmnNibbles(n.plmn);
    var s := "gnb:" + PlmnText(n.plmn);
    assert s == "gnb:208-092";
    assert PlmnPart(n) == s;
    IdentityDigits(n);
    assert Name(n) == "gnb:208-092-" + "b5c67788" by {
      var t := HexText(n.id.value, 4);
      HexTextAt(n.id.value, 4, 0);
      HexTextAt(n.id.value, 4, 1);
      HexTextAt(n.id.value, 4, 2);
      HexTextAt(n.id.value, 4, 3);
      assert t == "b5c67788";
    }
  }

  /** CLEAR_ALL skips the keys that start like this. */
  predicate Filtered(key: string) {
    "host:" <= key || "msg:" <= key
  }

  /** No RAN name is skipped. */
  lemma NeverFiltered(n: NodeId)
    requires ValidId(n) && n.NodeId?
    ensures !Filtered(Name(n)) && Name(n) != ""
  {
    hide PlmnText, HexText, PlmnPart;
    NameStarts(n);
    assert Name(n)[0] == Prefix(n.kind)[0];
  }

  /** Characters that tell the kinds apart. */
  lemma KindMarks(k: Kind)
    ensures var p := Prefix(k);
            && |p| >= 4
            && (p[0] == 'g' <==> k.Gnb?)
            && (p[0] == 'n' <==> k.NgEnbMacro? || k.NgEnbShortMacro? || k.NgEnbLongMacro?)
            && (p[0] == 'e' && p[2] == '-' <==> k.EnGnb?)
            && (p[0] == 'n' ==> |p| > 7 && p[7] == if k.NgEnbMacro? then 'm' else if k.NgEnbShortMacro? then 's' else 'l')
            && (p[0] == 'e' && p[2] == 'B' <==> k.EnbMacro? || k.EnbHome? || k.EnbShortMacro? || k.EnbLongMacro?)
            && (p[2] == 'B' ==> |p| > 4)
            && (p[2] == 'B' ==> p[4] == if k.EnbMacro? then 'm' else if k.EnbHome? then 'h' else if k.EnbShortMacro? then 's' else 'l')
  {
  }

  /** Names of different kinds differ. */
  lemma KindsDistinct(m: NodeId, n: NodeId)
    requires ValidId(m) && m.NodeId? && ValidId(n) && n.NodeId? && Name(m) == Name(n)
    ensures m.kind == n.kind
  {
    hide Prefix, Name;
    NameStarts(m);
    NameStarts(n);
    KindMarks(m.kind);
    KindMarks(n.kind);
    var p, q, s := Prefix(m.kind), Prefix(n.kind), Name(m);
    assert p[0] == s[0] == q[0] && p[2] == s[2] == q[2];
    if p[0] == 'n' && |p| > 7 && |q| > 7 { assert p[7] == s[7] == q[7]; }
    if |p| > 4 && |q| > 4 { assert p[4] == s[4] == q[4]; }
  }

  /** Nothing after the last dash is a dash: the identity is where the name says. */
  lemma LastDash(x: string, h: string, y: string, k: string)
    requires x + ("-" + h) == y + ("-" + k) && '-' !in h && '-' !in k
    ensures x == y && h == k
  {
    var s := x + ("-" + h);
    assert s[|x|] == '-' && s[|y|] == '-';
    assert forall i :: |x| < i < |s| ==> s[i] == h[i - |x| - 1];
    assert forall i :: |y| < i < |s| ==> s[i] == k[i - |y| - 1];
    assert |x| == |y|;
    assert s[..|x|] == x && s[..|y|] == y && s[|x| + 1..] == h && s[|y| + 1..] == k;
  }

  lemma {:induction false} HexInjective(a: seq<byte>, b: seq<byte>, n: nat)
    requires n <= |a| && n <= |b| && HexText(a, n) == HexText(b, n)
    ensures a[..n] == b[..n]
  {
    hide HexChar;
    if n > 0 {
      var s, t := HexText(a, n), HexText(b, n);
      assert s[..2 * n - 2] == HexText(a, n - 1) && t[..2 * n - 2] == HexText(b, n - 1);
      HexInjective(a, b, n - 1);
      assert s[2 * n - 2] == t[2 * n - 2] && s[2 * n - 1] == t[2 * n - 1];
      HexCharInjective(a[n - 1] / 16, b[n - 1] / 16);
      HexCharInjective(a[n - 1] % 16, b[n - 1] % 16);
      assert a[..n] == a[..n - 1] + [a[n - 1]] && b[..n] == b[..n - 1] + [b[n - 1]];
    }
  }

  lemma HexCharInjective(v: nat, w: nat)
    requires v < 16 && w < 16
    ensures HexChar(v) == HexChar(w) <==> v == w
  {
  }

  /**
   * Two nodes with identities have the same name exactly when they are of one kind,
   * print the same PLMN part and have the same identity octets.
   */
  lemma SameName(m: NodeId, n: NodeId)
    requires ValidId(m) && m.NodeId? && m.id.Some? && ValidId(n) && n.NodeId? && n.id.Some?
    ensures Name(m) == Name(n) <==> m.kind == n.kind && PlmnPart(m) == PlmnPart(n) && m.id == n.id
  {
    hide Prefix, PlmnPart, HexText;
    if Name(m) == Name(n) {
      KindsDistinct(m, n);
      var a, b := m.id.value, n.id.value;
      LastDash(PlmnPart(m), HexText(a, |a|), PlmnPart(n), HexText(b, |b|));
      HexInjective(a, b, |a|);
      assert a[..|a|] == a && b[..|b|] == b;
    }
  }

  // ----- which PLMN identities share names -----

  /** Binary-coded decimal digits, 15 standing for a missing third network digit. */
  predicate DecimalPlmn(p: seq<byte>) {
    && |p| == 3
    && p[0] % 16 <= 9 && p[0] / 16 <= 9 && p[1] % 16 <= 9
    && p[2] % 16 <= 9 && p[2] / 16 <= 9 && (p[1] / 16 <= 9 || p[1] / 16 == 15)
  }

  /** The three network digits, a leading 0 completing two of them. */
  function Mnc(p: seq<byte>): (d: (nat, nat, nat))
    requires DecimalPlmn(p)
    ensures d.0 <= 9 && d.1 <= 9 && d.2 <= 9
  {
    if p[1] / 16 == 15 then (0, p[2] % 16, p[2] / 16) else (p[2] % 16, p[2] / 16, p[1] / 16)
  }

  /** The six digits printed. */
  function Digits(p: seq<byte>): (d: seq<nat>)
    requires DecimalPlmn(p)
    ensures |d| == 6 && forall i :: 0 <= i < 6 ==> d[i] <= 9
  {
    var m := Mnc(p);
    [p[0] % 16, p[0] / 16, p[1] % 16, m.0, m.1, m.2]
  }

  /** How many of the six digits the PLMN buffer keeps after the prefix of a kind. */
  function DigitsKept(k: Kind): (n: nat)
    ensures n <= 6
  {
    match k
    case Gnb => 6
    case EnGnb => 6
    case NgEnbMacro => 5
    case NgEnbShortMacro => 1
    case NgEnbLongMacro => 2
    case EnbMacro => 6
    case EnbHome => 6
    case EnbShortMacro => 3
    case EnbLongMacro => 4
  }

  /** Digits as text, a dash after the third. */
  function DigitsText(d: seq<nat>, n: nat): (s: string)
    requires |d| == 6 && n <= 7 && forall i :: 0 <= i < 6 ==> d[i] <= 9
    ensures |s| == n
  {
    [DigitChar(d[0]), DigitChar(d[1]), DigitChar(d[2]), '-', DigitChar(d[3]), DigitChar(d[4]), DigitChar(d[5])][..n]
  }

  lemma OneDigit(v: nat)
    requires v <= 9
    ensures Decimal(v) == [DigitChar(v)]
  {
  }

  lemma PlmnDigits(p: seq<byte>)
    requires DecimalPlmn(p)
    ensures PlmnText(p) == DigitsText(Digits(p), 7)
  {
    hide Decimal, DigitChar;
    var m := Mnc(p);
    OneDigit(p[0] % 16);
    OneDigit(p[0] / 16);
    OneDigit(p[1] % 16);
    OneDigit(p[2] % 16);
    OneDigit(p[2] / 16);
    if p[1] / 16 != 15 { OneDigit(p[1] / 16); }
    assert "0" == [DigitChar(0)] by { OneDigit(0); Zero(); }
  }

  lemma Zero()
    ensures DigitChar(0) == '0'
  {
  }

  /** Characters the prefix of a kind leaves for the PLMN, of the seven a decimal one has. */
  function Room(k: Kind): (n: nat)
    ensures n <= 7
  {
    var left := PLMN_SIZE - 1 - |Prefix(k)|;
    if left < 7 then left else 7
  }

  lemma RoomAndDigits(k: Kind)
    ensures DigitsKept(k) == if Room(k) <= 3 then Room(k) else Room(k) - 1
  {
  }

  lemma DecimalPart(n: NodeId)
    requires ValidId(n) && n.NodeId? && DecimalPlmn(n.plmn)
    ensures PlmnPart(n) == Prefix(n.kind) + DigitsText(Digits(n.plmn), Room(n.kind))
  {
    hide Prefix, PlmnText, Digits, DigitChar;
    PrefixPrintable(n.kind);
    PlmnDigits(n.plmn);
  }

  lemma SameDigitsText(d: seq<nat>, e: seq<nat>, n: nat)
    requires |d| == |e| == 6 && n <= 7
    requires forall i :: 0 <= i < 6 ==> d[i] <= 9 && e[i] <= 9
    ensures var k := if n <= 3 then n else n - 1;
            DigitsText(d, n) == DigitsText(e, n) <==> d[..k] == e[..k]
  {
    var k := if n <= 3 then n else n - 1;
    var s, t := DigitsText(d, n), DigitsText(e, n);
    if s == t {
      forall i | 0 <= i < k
        ensures d[i] == e[i]
      {
        var j := if i < 3 then i else i + 1;
        assert s[j] == t[j] && s[j] == DigitChar(d[i]) && t[j] == DigitChar(e[i]);
        assert DigitValue(s[j]) == d[i] && DigitValue(t[j]) == e[i];
      }
    }
    if d[..k] == e[..k] {
      forall i | 0 <= i < k
        ensures d[i] == e[i]
      {
        assert d[..k][i] == e[..k][i];
      }
      forall j | 0 <= j < n
        ensures s[j] == t[j]
      {
        if j < 3 { assert d[j] == e[j]; } else if j > 3 { assert d[j - 1] == e[j - 1]; }
      }
    }
  }

  /** For decimal PLMN identities of one kind the PLMN parts agree exactly when the digits kept do. */
  lemma SamePlmnPart(m: NodeId, n: NodeId)
    requires ValidId(m) && m.NodeId? && ValidId(n) && n.NodeId? && m.kind == n.kind
    requires DecimalPlmn(m.plmn) && DecimalPlmn(n.plmn)
    ensures PlmnPart(m) == PlmnPart(n) <==> Digits(m.plmn)[..DigitsKept(m.kind)] == Digits(n.plmn)[..DigitsKept(m.kind)]
    ensures |PlmnPart(m)| == |PlmnPart(n)|
  {
    hide Prefix, PlmnPart, Digits, DigitsText, DigitsKept, Room;
    DecimalPart(m);
    DecimalPart(n);
    RoomAndDigits(m.kind);
    SameDigitsText(Digits(m.plmn), Digits(n.plmn), Room(m.kind));
    var p := Prefix(m.kind);
    assert PlmnPart(m)[|p|..] == DigitsText(Digits(m.plmn), Room(m.kind));
    assert PlmnPart(n)[|p|..] == DigitsText(Digits(n.plmn), Room(m.kind));
  }

  /** The digits are those of the octets, except that a two-digit code meets the three-digit one with a leading 0. */
  lemma SameDigits(p: seq<byte>, q: seq<byte>)
    requires DecimalPlmn(p) && DecimalPlmn(q)
    ensures Digits(p) == Digits(q) <==> p[0] == q[0] && p[1] % 16 == q[1] % 16 && Mnc(p) == Mnc(q)
    ensures Digits(p) == Digits(q) && (p[1] / 16 == 15 <==> q[1] / 16 == 15) ==> p == q
  {
    var d, e := Digits(p), Digits(q);
    if d == e {
      assert d[0] == e[0] && d[1] == e[1] && d[2] == e[2] && d[3] == e[3] && d[4] == e[4] && d[5] == e[5];
      Nibbles(p[0], q[0]);
      if p[1] / 16 == 15 <==> q[1] / 16 == 15 {
        Nibbles(p[1], q[1]);
        Nibbles(p[2], q[2]);
      }
    }
  }

  lemma Nibbles(a: byte, b: byte)
    ensures a % 16 == b % 16 && a / 16 == b / 16 ==> a == b
  {
  }

  /**
   * Names of nodes with decimal PLMN identities, identity octets or none: they agree
   * exactly for one kind, the same digits as far as the prefix leaves room, and the
   * same identity. Kinds that keep six digits tell all PLMN identities apart but
   * those of SameDigits.
   */
  lemma SameNameDecimal(m: NodeId, n: NodeId)
    requires ValidId(m) && m.NodeId? && ValidId(n) && n.NodeId? && DecimalPlmn(m.plmn) && DecimalPlmn(n.plmn)
    ensures Name(m) == Name(n) <==>
              && m.kind == n.kind && m.id == n.id
              && Digits(m.plmn)[..DigitsKept(m.kind)] == Digits(n.plmn)[..DigitsKept(m.kind)]
  {
    hide Prefix, PlmnPart, HexText, Digits, DigitsKept;
    if m.kind == n.kind { SamePlmnPart(m, n); }
    if Name(m) == Name(n) {
      KindsDistinct(m, n);
      var k := |PlmnPart(m)|;
      assert Name(m)[..k] == PlmnPart(m) && Name(n)[..k] == PlmnPart(n);
      assert Name(m)[k..] == IdPart(m) && Name(n)[k..] == IdPart(n);
      SameIdPart(m, n);
    }
  }

  lemma SameIdPart(m: NodeId, n: NodeId)
    requires m.NodeId? && n.NodeId? && IdPart(m) == IdPart(n)
    ensures m.id == n.id
  {
    hide HexText;
    if m.id.Some? {
      assert IdPart(m) != "";
      var a, b := m.id.value, n.id.value;
      assert IdPart(m)[1..] == HexText(a, |a|) && IdPart(n)[1..] == HexText(b, |b|);
      HexInjective(a, b, |a|);
      assert a[..|a|] == a && b[..|b|] == b;
    }
  }

  /** A two-digit network code meets the three-digit one with a leading 0, here under the shortest prefix. */
  lemma PlmnCollision()
    ensures var m, n := NodeId(Gnb, [0x00, 0xF0, 0x21], None), NodeId(Gnb, [0x00, 0x20, 0x10], None);
            m != n && PlmnText(m.plmn) == PlmnText(n.plmn) && Name(m) == Name(n)
  {
    hide Prefix, Name, Digits, PlmnText;
    var p: seq<byte>, q: seq<byte> := [0x00, 0xF0, 0x21], [0x00, 0x20, 0x10];
    SameDigits(p, q);
    PlmnDigits(p);
    PlmnDigits(q);
    assert Digits(p)[..6] == Digits(q)[..6];
    SameNameDecimal(NodeId(Gnb, p, None), NodeId(Gnb, q, None));
  }

  /** With the longest prefix PLMN identities that share their first digit share their names. */
  lemma ShortMacroCollision(id: seq<byte>)
    ensures var m, n := NodeId(NgEnbShortMacro, [0x12, 0xF3, 0x54], Some(id)), NodeId(NgEnbShortMacro, [0x92, 0xF8, 0x76], Some(id));
            m != n && Name(m) == Name(n)
  {
    hide Prefix, Name;
    SameNameDecimal(NodeId(NgEnbShortMacro, [0x12, 0xF3, 0x54], Some(id)), NodeId(NgEnbShortMacro, [0x92, 0xF8, 0x76], Some(id)));
  }

  /** With the longest prefix only one PLMN digit is left, decimal or not: it alone decides the PLMN part. */
  lemma ShortMacroKeepsOneDigit(m: NodeId, n: NodeId)
    requires ValidId(m) && m.NodeId? && m.kind.NgEnbShortMacro? && ValidId(n) && n.NodeId? && n.kind.NgEnbShortMacro?
    ensures PlmnPart(m) == PlmnPart(n) <==> Decimal(m.plmn[0] % 16)[0] == Decimal(n.plmn[0] % 16)[0]
  {
    hide Decimal, Prefix;
    OneDigitLeft(m);
    OneDigitLeft(n);
    assert PlmnPart(m)[|Prefix(m.kind)|] == Decimal(m.plmn[0] % 16)[0];
    assert PlmnPart(n)[|Prefix(n.kind)|] == Decimal(n.plmn[0] % 16)[0];
  }

  lemma OneDigitLeft(m: NodeId)
    requires ValidId(m) && m.NodeId? && m.kind.NgEnbShortMacro?
    ensures PlmnPart(m) == Prefix(m.kind) + [Decimal(m.plmn[0] % 16)[0]]
  {
    hide Decimal;
    PlmnPrintable(m.plmn);
    assert |Prefix(m.kind)| == 18;
    assert PlmnText(m.plmn)[0] == Decimal(m.plmn[0] % 16)[0];
  }
}
