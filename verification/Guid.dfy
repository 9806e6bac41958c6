/**
 The text form of a GUID (src/automount.c:116-122): the first three fields are
 little-endian numbers, the last two are bytes in order, as in Appendix A of the
 UEFI Specification. Also the names of partition device nodes (134-153).
 */
module Guid {
  import opened Wrappers
  import opened Numbers

  type Raw = r: seq<Byte> | |r| == 16 witness seq(16, _ => 0)

  // ----- Printing -----

  /** `%0<width>x`. */
  function HexPadded(n: nat, width: nat): (s: string)
    ensures |s| == width
  {
    if width == 0 then "" else HexPadded(n / 16, width - 1) + [DigitChar(n % 16)]
  }

  /** The number that bytes stand for with the least significant first: `le16toh`, `le32toh`. */
  function Little(bytes: seq<Byte>): (n: nat) {
    if bytes == [] then 0 else bytes[0] as int + 256 * Little(bytes[1..])
  }

  /** `cominitAutomountFormatGuid`. */
  function FormatGuid(raw: Raw): (s: string) {
    HexPadded(Little(raw[0..4]), 8) + "-" + HexPadded(Little(raw[4..6]), 4) + "-" +
    HexPadded(Little(raw[6..8]), 4) + "-" + Hex(raw[8..10]) + "-" + Hex(raw[10..16])
  }

  lemma HexPaddedByte(x: nat, b: Byte, width: nat)
    ensures HexPadded(256 * x + b, width + 2) == HexPadded(x, width) + Hex([b])
  {
    var n := 256 * x + b;
    assert n / 16 == 16 * x + b / 16 && n % 16 == b % 16;
    assert n / 16 / 16 == x && n / 16 % 16 == b / 16;
    assert HexPadded(n, width + 2) == HexPadded(x, width) + [DigitChar(b / 16)] + [DigitChar(b % 16)];
    assert Hex([b]) == [DigitChar(b / 16), DigitChar(b % 16)] + Hex([b][1..]);
  }

  function Reverse(bytes: seq<Byte>): (r: seq<Byte>)
    ensures |r| == |bytes| && forall i :: 0 <= i < |r| ==> r[i] == bytes[|bytes| - 1 - i]
  {
    seq(|bytes|, i requires 0 <= i < |bytes| => bytes[|bytes| - 1 - i])
  }

  lemma ReverseCons(bytes: seq<Byte>)
    requires bytes != []
    ensures Reverse(bytes) == Reverse(bytes[1..]) + [bytes[0]]
  {
  }

  /** A little-endian number prints as its bytes from the last to the first. */
  lemma {:induction false} LittleText(bytes: seq<Byte>)
    ensures HexPadded(Little(bytes), 2 * |bytes|) == Hex(Reverse(bytes))
  {
    if bytes == [] {
      assert Reverse(bytes) == [];
    } else {
      var rest := bytes[1..];
      LittleText(rest);
      HexPaddedByte(Little(rest), bytes[0], 2 * |rest|);
      HexAppend(Reverse(rest), bytes[0]);
      HexOfByte(bytes[0]);
      ReverseCons(bytes);
      hide Hex, HexPadded, Reverse;
      assert 2 * |bytes| == 2 * |rest| + 2;
    }
  }

  // ----- Reading -----

  /** `tolower`. */
  function LowerChar(c: char): (l: char) {
    if 'A' <= c <= 'Z' then (c as int + 32) as char else c
  }

  function Lower(s: string): (t: string)
    ensures |t| == |s| && forall i :: 0 <= i < |s| ==> t[i] == LowerChar(s[i])
  {
    seq(|s|, i requires 0 <= i < |s| => LowerChar(s[i]))
  }

  /** `strcasecmp(a, b) == 0`. */
  predicate SameText(a: string, b: string) {
    Lower(a) == Lower(b)
  }

  predicate HexText(s: string) {
    forall i :: 0 <= i < |s| ==> DigitValue(s[i]) < 16
  }

  /** The canonical form: 8-4-4-4-12 hexadecimal digits, in either letter case. */
  predicate Canonical(t: string) {
    && |t| == 36
    && t[8] == '-' && t[13] == '-' && t[18] == '-' && t[23] == '-'
    && HexText(t[0..8]) && HexText(t[9..13]) && HexText(t[14..18]) && HexText(t[19..23]) && HexText(t[24..36])
  }

  /** The bytes that hexadecimal text stands for. */
  function BytesOf(s: string): (bytes: seq<Byte>)
    requires HexText(s)
    ensures |bytes| == |s| / 2
  {
    if |s| < 2 then []
    else
      assert DigitValue(s[0]) < 16 && DigitValue(s[1]) < 16;
      assert forall i :: 0 <= i < |s| - 2 ==> s[2..][i] == s[i + 2];
      [DigitValue(s[0]) * 16 + DigitValue(s[1])] + BytesOf(s[2..])
  }

  /** The one raw value with the given canonical text. */
  function ParseGuid(t: string): (raw: Raw)
    requires Canonical(t)
  {
    var a, b, c := BytesOf(t[0..8]), BytesOf(t[9..13]), BytesOf(t[14..18]);
    [a[3], a[2], a[1], a[0]] + [b[1], b[0]] + [c[1], c[0]] + BytesOf(t[19..23]) + BytesOf(t[24..36])
  }

  /** The bytes in front of the rest, and their digits. */
  lemma BytesOfCons(s: string)
    requires HexText(s) && |s| >= 2
    ensures HexText(s[2..])
    ensures BytesOf(s) == [DigitValue(s[0]) * 16 + DigitValue(s[1])] + BytesOf(s[2..])
    ensures DigitValue(s[0]) < 16 && DigitValue(s[1]) < 16
  {
    assert forall i :: 0 <= i < |s| - 2 ==> s[2..][i] == s[i + 2];
  }

  lemma LowerCons(s: string)
    requires |s| >= 2
    ensures Lower(s) == [LowerChar(s[0]), LowerChar(s[1])] + Lower(s[2..])
  {
    hide LowerChar;
  }

  lemma NoBytes(s: string)
    requires s == ""
    ensures HexText(s) && Hex(BytesOf(s)) == Lower(s)
  {
  }

  lemma {:induction false} HexOfBytesOf(s: string)
    requires HexText(s) && |s| % 2 == 0
    ensures Hex(BytesOf(s)) == Lower(s)
    decreases |s|
  {
    hide Hex, HexText, BytesOf, DigitChar, DigitValue, LowerChar, Lower;
    if s == "" {
      NoBytes(s);
    } else {
      BytesOfCons(s);
      HexOfBytesOf(s[2..]);
      var h, l := DigitValue(s[0]), DigitValue(s[1]);
      HexCons(h * 16 + l, BytesOf(s[2..]));
      assert (h * 16 + l) / 16 == h && (h * 16 + l) % 16 == l;
      LowerDigit(s[0]);
      LowerDigit(s[1]);
      LowerCons(s);
    }
  }

  lemma HexOfByte(b: Byte)
    ensures Hex([b]) == [DigitChar(b / 16), DigitChar(b % 16)]
  {
    assert [b][1..] == [];
  }

  lemma HexCons(b: Byte, bytes: seq<Byte>)
    ensures Hex([b] + bytes) == [DigitChar(b / 16), DigitChar(b % 16)] + Hex(bytes)
  {
    assert ([b] + bytes)[1..] == bytes;
  }

  lemma LowerDigit(c: char)
    requires DigitValue(c) < 16
    ensures DigitChar(DigitValue(c)) == LowerChar(c)
  {
  }

  /** The pieces of the text of a raw value. */
  lemma FormatPieces(raw: Raw)
    ensures FormatGuid(raw) ==
            Hex([raw[3], raw[2], raw[1], raw[0]]) + "-" + Hex([raw[5], raw[4]]) + "-" +
            Hex([raw[7], raw[6]]) + "-" + Hex(raw[8..10]) + "-" + Hex(raw[10..16])
  {
    LittleText(raw[0..4]);
    LittleText(raw[4..6]);
    LittleText(raw[6..8]);
    hide Hex, HexPadded, Little;
    assert Reverse(raw[0..4]) == [raw[3], raw[2], raw[1], raw[0]];
    assert Reverse(raw[4..6]) == [raw[5], raw[4]];
    assert Reverse(raw[6..8]) == [raw[7], raw[6]];
  }

  /** Joining the five fields. */
  function Dashed(a: string, b: string, c: string, d: string, e: string): (s: string) {
    a + "-" + b + "-" + c + "-" + d + "-" + e
  }

  lemma DashedInjective(a: string, b: string, c: string, d: string, e: string,
                        a': string, b': string, c': string, d': string, e': string)
    requires |a| == |a'| && |b| == |b'| && |c| == |c'| && |d| == |d'|
    requires Dashed(a, b, c, d, e) == Dashed(a', b', c', d', e')
    ensures a == a' && b == b' && c == c' && d == d' && e == e'
  {
    DashedSlices(a, b, c, d, e);
    DashedSlices(a', b', c', d', e');
  }

  lemma DashedSlices(a: string, b: string, c: string, d: string, e: string)
    ensures var s := Dashed(a, b, c, d, e);
            var i, j, k, l := |a|, |a| + 1 + |b|, |a| + 2 + |b| + |c|, |a| + 3 + |b| + |c| + |d|;
            && |s| == l + 1 + |e|
            && s[..i] == a && s[i + 1..j] == b && s[j + 1..k] == c && s[k + 1..l] == d && s[l + 1..] == e
            && s[i] == '-' && s[j] == '-' && s[k] == '-' && s[l] == '-'
  {
  }

  lemma {:induction false} HexInjective(a: seq<Byte>, b: seq<Byte>)
    requires Hex(a) == Hex(b)
    ensures a == b
  {
    HexRoundTrip(a);
    HexRoundTrip(b);
  }

  /** Two raw values with the same text are the same. */
  lemma FormatInjective(raw: Raw, raw': Raw)
    ensures FormatGuid(raw) == FormatGuid(raw') <==> raw == raw'
  {
    FormatPieces(raw);
    FormatPieces(raw');
    hide FormatGuid, Hex;
    if FormatGuid(raw) == FormatGuid(raw') {
      DashedInjective(
        Hex([raw[3], raw[2], raw[1], raw[0]]), Hex([raw[5], raw[4]]), Hex([raw[7], raw[6]]),
        Hex(raw[8..10]), Hex(raw[10..16]),
        Hex([raw'[3], raw'[2], raw'[1], raw'[0]]), Hex([raw'[5], raw'[4]]), Hex([raw'[7], raw'[6]]),
        Hex(raw'[8..10]), Hex(raw'[10..16]));
      HexInjective([raw[3], raw[2], raw[1], raw[0]], [raw'[3], raw'[2], raw'[1], raw'[0]]);
      HexInjective([raw[5], raw[4]], [raw'[5], raw'[4]]);
      HexInjective([raw[7], raw[6]], [raw'[7], raw'[6]]);
      HexInjective(raw[8..10], raw'[8..10]);
      HexInjective(raw[10..16], raw'[10..16]);
      RawPieces(raw);
      RawPieces(raw');
    }
  }

  lemma RawPieces(raw: Raw)
    ensures raw == [raw[0], raw[1], raw[2], raw[3], raw[4], raw[5], raw[6], raw[7]] + raw[8..10] + raw[10..16]
  {
  }

  /** Printing the raw value of a canonical text gives the text in lower case. */
  lemma FormatOfParse(t: string)
    requires Canonical(t)
    ensures FormatGuid(ParseGuid(t)) == Lower(t)
  {
    var raw := ParseGuid(t);
    var a, b, c, d, e := t[0..8], t[9..13], t[14..18], t[19..23], t[24..36];
    HexOfBytesOf(a);
    HexOfBytesOf(b);
    HexOfBytesOf(c);
    HexOfBytesOf(d);
    HexOfBytesOf(e);
    FormatPieces(raw);
    ParsedPieces(t);
    hide Hex, BytesOf, FormatGuid, ParseGuid;
    LowerPieces(t);
  }

  lemma ParsedPieces(t: string)
    requires Canonical(t)
    ensures var raw := ParseGuid(t);
            && [raw[3], raw[2], raw[1], raw[0]] == BytesOf(t[0..8])
            && [raw[5], raw[4]] == BytesOf(t[9..13])
            && [raw[7], raw[6]] == BytesOf(t[14..18])
            && raw[8..10] == BytesOf(t[19..23])
            && raw[10..16] == BytesOf(t[24..36])
  {
    hide BytesOf;
  }

  lemma LowerPieces(t: string)
    requires Canonical(t)
    ensures Lower(t) == Dashed(Lower(t[0..8]), Lower(t[9..13]), Lower(t[14..18]), Lower(t[19..23]), Lower(t[24..36]))
  {
    hide HexText;
    assert LowerChar('-') == '-';
  }

  lemma {:induction false} LowerOfHex(bytes: seq<Byte>)
    ensures Lower(Hex(bytes)) == Hex(bytes)
  {
    var s := Hex(bytes);
    if bytes == [] {
    } else {
      LowerOfHex(bytes[1..]);
      LowerOfDigit(bytes[0] / 16);
      LowerOfDigit(bytes[0] % 16);
      assert Lower(s) == [LowerChar(s[0]), LowerChar(s[1])] + Lower(s[2..]);
      assert s[2..] == Hex(bytes[1..]);
    }
  }

  lemma LowerOfDigit(d: nat)
    requires d < 16
    ensures LowerChar(DigitChar(d)) == DigitChar(d)
  {
  }

  lemma LowerDashed(a: string, b: string, c: string, d: string, e: string)
    ensures Lower(Dashed(a, b, c, d, e)) == Dashed(Lower(a), Lower(b), Lower(c), Lower(d), Lower(e))
  {
    hide Lower;
    LowerDash();
    LowerConcat(a, "-");
    LowerConcat(a + "-", b);
    LowerConcat(a + "-" + b, "-");
    LowerConcat(a + "-" + b + "-", c);
    LowerConcat(a + "-" + b + "-" + c, "-");
    LowerConcat(a + "-" + b + "-" + c + "-", d);
    LowerConcat(a + "-" + b + "-" + c + "-" + d, "-");
    LowerConcat(a + "-" + b + "-" + c + "-" + d + "-", e);
  }

  lemma LowerDash()
    ensures Lower("-") == "-"
  {
  }

  lemma LowerConcat(a: string, b: string)
    ensures Lower(a + b) == Lower(a) + Lower(b)
  {
  }

  lemma FormatIsLower(raw: Raw)
    ensures Lower(FormatGuid(raw)) == FormatGuid(raw)
  {
    FormatPieces(raw);
    var a, b, c := [raw[3], raw[2], raw[1], raw[0]], [raw[5], raw[4]], [raw[7], raw[6]];
    LowerOfHex(a);
    LowerOfHex(b);
    LowerOfHex(c);
    LowerOfHex(raw[8..10]);
    LowerOfHex(raw[10..16]);
    LowerDashed(Hex(a), Hex(b), Hex(c), Hex(raw[8..10]), Hex(raw[10..16]));
    hide Hex, Lower;
  }

  /**
   A canonical text, in either letter case, is matched by exactly one raw value.
   */
  lemma MatchesExactlyOne(raw: Raw, t: string)
    requires Canonical(t)
    ensures SameText(FormatGuid(raw), t) <==> raw == ParseGuid(t)
  {
    FormatIsLower(raw);
    FormatOfParse(t);
    hide FormatGuid, ParseGuid, Lower;
    if FormatGuid(raw) == Lower(t) {
      FormatInjective(raw, ParseGuid(t));
    }
  }

  lemma {:induction false} HexIsHexText(bytes: seq<Byte>)
    ensures HexText(Hex(bytes)) && |Hex(bytes)| == 2 * |bytes|
  {
    if bytes == [] {
    } else {
      var rest := Hex(bytes[1..]);
      HexIsHexText(bytes[1..]);
      assert bytes == [bytes[0]] + bytes[1..];
      HexCons(bytes[0], bytes[1..]);
      DigitIsHex(bytes[0] / 16);
      DigitIsHex(bytes[0] % 16);
      hide Hex, DigitChar, DigitValue;
    }
  }

  lemma DigitIsHex(n: nat)
    requires n < 16
    ensures DigitValue(DigitChar(n)) < 16
  {
  }

  lemma DashedIsCanonical(a: string, b: string, c: string, d: string, e: string)
    requires HexText(a) && HexText(b) && HexText(c) && HexText(d) && HexText(e)
    requires |a| == 8 && |b| == 4 && |c| == 4 && |d| == 4 && |e| == 12
    ensures Canonical(Dashed(a, b, c, d, e))
  {
    var t := Dashed(a, b, c, d, e);
    DashedSlices(a, b, c, d, e);
    hide HexText, Dashed;
    assert t[0..8] == a && t[9..13] == b && t[14..18] == c && t[19..23] == d && t[24..36] == e;
  }

  /** Reading back what was printed: the text of every raw value is canonical and stands for that value. */
  lemma ParseOfFormat(raw: Raw)
    ensures Canonical(FormatGuid(raw)) && ParseGuid(FormatGuid(raw)) == raw
  {
    FormatPieces(raw);
    var a, b, c := [raw[3], raw[2], raw[1], raw[0]], [raw[5], raw[4]], [raw[7], raw[6]];
    HexIsHexText(a);
    HexIsHexText(b);
    HexIsHexText(c);
    HexIsHexText(raw[8..10]);
    HexIsHexText(raw[10..16]);
    hide Hex, HexText, FormatGuid, ParseGuid, Lower, Canonical;
    DashedIsCanonical(Hex(a), Hex(b), Hex(c), Hex(raw[8..10]), Hex(raw[10..16]));
    MatchesExactlyOne(raw, FormatGuid(raw));
  }

  // ----- Partition nodes -----

  predicate EndsWithDigit(s: string) {
    s != "" && IsDecimalDigit(s[|s| - 1])
  }

  /** `cominitAutomountBuildPartitionNode`, apart from the size of the buffer. */
  function NodeName(disk: string, idx: nat): (s: string) {
    if EndsWithDigit(disk) then disk + "p" + Decimal(idx) else disk + Decimal(idx)
  }

  function PartitionNode(disk: string, idx: nat, room: nat): (r: Option<string>) {
    if |NodeName(disk, idx)| < room then Some(NodeName(disk, idx)) else None
  }

  lemma TrailingNumber(d: string, i: nat, e: string, j: nat)
    requires !EndsWithDigit(d) && !EndsWithDigit(e) && d + Decimal(i) == e + Decimal(j)
    ensures d == e && i == j
  {
    if |d| < |e| {
      LongerEndsWithDigit(d, Decimal(i), e, Decimal(j));
    } else if |e| < |d| {
      LongerEndsWithDigit(e, Decimal(j), d, Decimal(i));
    }
    assert d == (d + Decimal(i))[..|d|] == e;
    assert Decimal(i) == (d + Decimal(i))[|d|..] == Decimal(j);
    DecimalRoundTrip(i);
    DecimalRoundTrip(j);
  }

  lemma LongerEndsWithDigit(d: string, x: string, e: string, y: string)
    requires IsDecimal(x) && d + x == e + y && |d| < |e|
    ensures EndsWithDigit(e)
  {
    var k := |e| - 1;
    assert e[k] == (e + y)[k] == (d + x)[k] == x[k - |d|];
  }

  /**
   Two partitions share a node name exactly when they have the same index and the
   same disk, or one disk is named like the other, which ends in a digit, plus `p`.
   */
  lemma NodeNameCollision(d: string, i: nat, e: string, j: nat)
    ensures NodeName(d, i) == NodeName(e, j) <==>
            i == j && (d == e || (EndsWithDigit(d) && e == d + "p") || (EndsWithDigit(e) && d == e + "p"))
  {
    var d' := if EndsWithDigit(d) then d + "p" else d;
    var e' := if EndsWithDigit(e) then e + "p" else e;
    if NodeName(d, i) == NodeName(e, j) {
      TrailingNumber(d', i, e', j);
      assert EndsWithDigit(d) ==> d == d'[..|d'| - 1];
      assert EndsWithDigit(e) ==> e == e'[..|e'| - 1];
    }
  }

  /** Node names of a disk without and with a digit at its end. */
  lemma NodeNameExamples()
    ensures NodeName("/dev/sda", 2) == "/dev/sda2"
    ensures NodeName("/dev/mmcblk0", 12) == "/dev/mmcblk0p12"
  {
    assert Decimal(2) == "2";
    assert Decimal(12) == Decimal(1) + ['2'] == "12";
    hide Decimal;
    assert EndsWithDigit("/dev/mmcblk0") && !EndsWithDigit("/dev/sda");
  }

  /** The text and the raw bytes of the root type: an example of the mixed byte order. */
  lemma MixedOrder()
    ensures var raw := [0x45, 0xb0, 0x21, 0xb9, 0xf0, 0x1d, 0xc3, 0x41, 0xaf, 0x44, 0x4c, 0x6f, 0x28, 0x0d, 0x3f, 0xae];
            var text := "b921b045-1df0-41c3-af44-4c6f280d3fae";
            Canonical(text) && ParseGuid(text) == raw
  {
    hide Hex, FormatGuid, ParseGuid, Canonical;
    var raw: Raw := [0x45, 0xb0, 0x21, 0xb9, 0xf0, 0x1d, 0xc3, 0x41, 0xaf, 0x44, 0x4c, 0x6f, 0x28, 0x0d, 0x3f, 0xae];
    HexPieces();
    LastHexPieces();
    FormatPieces(raw);
    ParseOfFormat(raw);
    assert raw[8..10] == [0xaf, 0x44] && raw[10..16] == [0x4c, 0x6f, 0x28, 0x0d, 0x3f, 0xae];
    JoinText(FormatGuid(raw));
  }

  lemma JoinText(text: string)
    requires text == "b921b045" + "-" + "1df0" + "-" + "41c3" + "-" + "af44" + "-" + "4c6f280d3fae"
    ensures text == "b921b045-1df0-41c3-af44-4c6f280d3fae"
  {
  }

  lemma HexPieces()
    ensures Hex([0xb9, 0x21, 0xb0, 0x45]) == "b921b045" && Hex([0x1d, 0xf0]) == "1df0" && Hex([0x41, 0xc3]) == "41c3"
  {
    hide Hex;
    HexOfTwo(0xb9, 0x21);
    HexOfTwo(0xb0, 0x45);
    HexOfTwo(0x1d, 0xf0);
    HexOfTwo(0x41, 0xc3);
    HexJoin([0xb9, 0x21], [0xb0, 0x45]);
    assert [0xb9, 0x21] + [0xb0, 0x45] == [0xb9, 0x21, 0xb0, 0x45];
  }

  lemma LastHexPieces()
    ensures Hex([0xaf, 0x44]) == "af44" && Hex([0x4c, 0x6f, 0x28, 0x0d, 0x3f, 0xae]) == "4c6f280d3fae"
  {
    hide Hex;
    HexOfTwo(0xaf, 0x44);
    HexOfTwo(0x4c, 0x6f);
    HexOfTwo(0x28, 0x0d);
    HexOfTwo(0x3f, 0xae);
    HexJoin([0x4c, 0x6f], [0x28, 0x0d]);
    assert [0x4c, 0x6f] + [0x28, 0x0d] == [0x4c, 0x6f, 0x28, 0x0d];
    HexJoin([0x4c, 0x6f, 0x28, 0x0d], [0x3f, 0xae]);
    assert [0x4c, 0x6f, 0x28, 0x0d] + [0x3f, 0xae] == [0x4c, 0x6f, 0x28, 0x0d, 0x3f, 0xae];
  }

  lemma HexOfTwo(a: Byte, b: Byte)
    ensures Hex([a, b]) == [DigitChar(a / 16), DigitChar(a % 16), DigitChar(b / 16), DigitChar(b % 16)]
  {
    HexOfByte(b);
    HexCons(a, [b]);
    assert [a] + [b] == [a, b];
  }

  lemma {:induction false} HexJoin(a: seq<Byte>, b: seq<Byte>)
    ensures Hex(a + b) == Hex(a) + Hex(b)
    decreases |b|
  {
    if b == [] {
      assert a + b == a;
      assert Hex(b) == "";
    } else {
      var init, last := b[..|b| - 1], b[|b| - 1];
      HexJoin(a, init);
      HexAppend(a + init, last);
      HexAppend(init, last);
      assert a + b == a + init + [last] && b == init + [last];
      hide Hex, DigitChar;
    }
  }
}
