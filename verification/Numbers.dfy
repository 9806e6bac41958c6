/**
 Numbers as text: the conversions of `printf` (`%lu`, `%02x`) and of
 `strtoul`/`strtoull`, with their 64-bit range made explicit.
 */
module Numbers {
  import opened CStrings

  type Byte = x: int | 0 <= x < 256

  const TWO64: nat := 0x1_0000_0000_0000_0000

  // ----- Digits -----

  /** The value of a digit character, 99 for anything that is not a digit in any base up to 16. */
  function DigitValue(c: char): (d: nat) {
    if '0' <= c <= '9' then c as int - '0' as int
    else if 'a' <= c <= 'f' then c as int - 'a' as int + 10
    else if 'A' <= c <= 'F' then c as int - 'A' as int + 10
    else 99
  }

  /** The lower-case digit character of a value below 16. */
  function DigitChar(d: nat): (c: char)
    requires d < 16
    ensures DigitValue(c) == d && c != ' ' && c != NUL
    ensures d < 10 ==> '0' <= c <= '9'
  {
    if d < 10 then ('0' as int + d) as char else ('a' as int + d - 10) as char
  }

  /** The digits of `%x`. */
  lemma DigitChars(d: nat)
    requires d < 16
    ensures DigitChar(d) == "0123456789abcdef"[d]
  {
  }

  predicate IsDecimalDigit(c: char) {
    '0' <= c <= '9'
  }

  predicate IsDecimal(s: string) {
    s != "" && forall i :: 0 <= i < |s| ==> IsDecimalDigit(s[i])
  }

  /** The number written by `s` in the given base. */
  function Value(s: string, base: nat): (v: nat) {
    if s == "" then 0 else Value(s[..|s| - 1], base) * base + DigitValue(s[|s| - 1])
  }

  /** `%lu`: decimal text without leading zeros. */
  function Decimal(n: nat): (s: string)
    ensures IsDecimal(s)
  {
    if n < 10 then [DigitChar(n)] else Decimal(n / 10) + [DigitChar(n % 10)]
  }

  /** Reading back what was printed. */
  lemma {:induction false} DecimalRoundTrip(n: nat)
    ensures Value(Decimal(n), 10) == n
  {
    if n < 10 {
      assert Decimal(n)[..0] == "";
    } else {
      var s := Decimal(n / 10);
      DecimalRoundTrip(n / 10);
      assert Decimal(n)[..|Decimal(n)| - 1] == s;
    }
  }

  /** The first digit is zero only for zero itself. */
  lemma {:induction false} DecimalLeadingDigit(n: nat)
    ensures n > 0 ==> Decimal(n)[0] != '0'
  {
    if n < 10 {
    } else {
      DecimalLeadingDigit(n / 10);
    }
  }

  lemma DecimalIsWord(n: nat)
    ensures IsWord(Decimal(n)) && NUL !in Decimal(n)
  {
  }

  // ----- Hexadecimal -----

  /** `%02x` of each byte in turn. */
  function Hex(bytes: seq<Byte>): (s: string)
    ensures |s| == 2 * |bytes|
  {
    if bytes == [] then ""
    else [DigitChar(bytes[0] / 16), DigitChar(bytes[0] % 16)] + Hex(bytes[1..])
  }

  /** Two digits to a byte. */
  function Unhex(s: string): (bytes: seq<int>) {
    if |s| < 2 then [] else [DigitValue(s[0]) * 16 + DigitValue(s[1])] + Unhex(s[2..])
  }

  lemma {:induction false} HexRoundTrip(bytes: seq<Byte>)
    ensures Unhex(Hex(bytes)) == bytes
  {
    if bytes == [] {
    } else {
      HexRoundTrip(bytes[1..]);
      assert Hex(bytes)[2..] == Hex(bytes[1..]);
    }
  }

  lemma {:induction false} HexHasNoBlank(bytes: seq<Byte>)
    ensures ' ' !in Hex(bytes) && NUL !in Hex(bytes)
  {
    if bytes == [] {
    } else {
      HexHasNoBlank(bytes[1..]);
    }
  }

  lemma {:induction false} HexAppend(bytes: seq<Byte>, b: Byte)
    ensures Hex(bytes + [b]) == Hex(bytes) + [DigitChar(b / 16), DigitChar(b % 16)]
  {
    if bytes == [] {
      assert [b][1..] == [];
    } else {
      HexAppend(bytes[1..], b);
      assert (bytes + [b])[1..] == bytes[1..] + [b];
    }
  }

  /**
   `cominitBytesToHex`: writes two characters a byte and a terminator behind each
   pair; room for `2n + 1` characters is what the caller owes.
   */
  method BytesToHex(dest: array<char>, src: seq<Byte>)
    requires dest.Length >= 2 * |src| + 1
    modifies dest
    ensures src != [] ==> IsStr(dest[..], 0, Hex(src))
    ensures forall i :: 2 * |src| < i < dest.Length ==> dest[i] == old(dest[i])
  {
    var i := 0;
    while i < |src|
      invariant 0 <= i <= |src|
      invariant dest[..2 * i] == Hex(src[..i])
      invariant i > 0 ==> dest[2 * i] == NUL
      invariant forall k :: 2 * |src| < k < dest.Length ==> dest[k] == old(dest[k])
    {
      ghost var before := dest[..2 * i];
      dest[2 * i], dest[2 * i + 1] := DigitChar(src[i] / 16), DigitChar(src[i] % 16);
      dest[2 * i + 2] := NUL;
      HexAppend(src[..i], src[i]);
      assert src[..i + 1] == src[..i] + [src[i]];
      assert dest[..2 * i] == before;
      i := i + 1;
    }
    assert src[..|src|] == src;
    HexHasNoBlank(src);
    assert dest[..][0..2 * |src|] == dest[..2 * |src|];
  }

  // ----- strtoul -----

  /** What `isspace` accepts in the C locale. */
  const WHITESPACE: set<char> := {' ', '\t', '\n', '\r', '\U{000B}', '\U{000C}'}

  /** Outcome of `strtoul`: the value, where parsing stopped, and whether errno became ERANGE. */
  datatype Number = Number(value: nat, end: nat, range: bool)

  /** Number of leading digits of `s` in the given base. */
  function DigitRun(s: string, base: nat): (n: nat)
    ensures n <= |s|
  {
    if s != "" && DigitValue(s[0]) < base then 1 + DigitRun(s[1..], base) else 0
  }

  /** Base detection for base argument 0, behind whitespace and sign: (base, characters of the prefix). */
  function DetectBase(s: string): (r: (nat, nat))
    ensures r.1 <= |s|
  {
    if |s| >= 3 && s[0] == '0' && (s[1] == 'x' || s[1] == 'X') && DigitValue(s[2]) < 16 then (16, 2)
    else if |s| >= 1 && s[0] == '0' then (8, 0)
    else (10, 0)
  }

  /**
   `strtoul(s, &end, base)` for base 10 or 0, 64 bits wide: skips whitespace, takes
   one sign, and saturates with ERANGE; a minus negates modulo 2^64. Without any
   digit the value is 0 and `end` stays at the start.
   */
  function StrToUL(s: string, base: nat): (r: Number)
    requires base == 10 || base == 0
    ensures r.value < TWO64 && r.end <= |s|
  {
    var w := Span(s, WHITESPACE);
    var body := s[w..];
    var minus := body != "" && body[0] == '-';
    var signed := minus || (body != "" && body[0] == '+');
    var at := if signed then w + 1 else w;
    if base == 10 then Convert(s[at..], 10, minus, at)
    else
      var (b, skip) := DetectBase(s[at..]);
      Convert(s[at + skip..], b, minus, at + skip)
  }

  /** The digits at the front of `digits`, which start at offset `at`. */
  function Convert(digits: string, base: nat, minus: bool, at: nat): (r: Number)
    ensures r.value < TWO64 && r.end <= at + |digits|
  {
    var n := DigitRun(digits, base);
    var v := Value(digits[..n], base);
    if n == 0 then Number(0, 0, false)
    else if v >= TWO64 then Number(TWO64 - 1, at + n, true)
    else Number(if minus then (TWO64 - v) % TWO64 else v, at + n, false)
  }

  lemma {:induction false} DigitRunProps(s: string, base: nat)
    ensures var n := DigitRun(s, base);
            && (forall i :: 0 <= i < n ==> DigitValue(s[i]) < base)
            && (n < |s| ==> DigitValue(s[n]) >= base)
  {
    if s == "" || DigitValue(s[0]) >= base {
    } else {
      DigitRunProps(s[1..], base);
      assert forall i :: 0 < i < DigitRun(s, base) ==> s[i] == s[1..][i - 1];
    }
  }

  lemma {:induction false} DigitRunUnique(s: string, base: nat, n: nat)
    requires n <= |s|
    requires forall i :: 0 <= i < n ==> DigitValue(s[i]) < base
    requires n < |s| ==> DigitValue(s[n]) >= base
    ensures DigitRun(s, base) == n
  {
    if n == 0 {
    } else {
      assert DigitValue(s[0]) < base;
      DigitRunUnique(s[1..], base, n - 1);
    }
  }

  /** At a digit `strtoul` converts exactly the run of digits that starts there. */
  lemma StrToULRun(s: string)
    requires s != "" && IsDecimalDigit(s[0])
    ensures var n := DigitRun(s, 10);
            var v := Value(s[..n], 10);
            && n > 0 && StrToUL(s, 10) == Number(if v < TWO64 then v else TWO64 - 1, n, v >= TWO64)
  {
    hide Value;
    SpanUnique(s, WHITESPACE, 0);
    assert s[0..] == s;
  }

  /** On plain decimal text `strtoul` gives the number written, saturated at 2^64 - 1. */
  lemma StrToULDecimal(s: string)
    requires IsDecimal(s)
    ensures StrToUL(s, 10) == Number(if Value(s, 10) < TWO64 then Value(s, 10) else TWO64 - 1,
                                     |s|, Value(s, 10) >= TWO64)
  {
    hide Value, StrToUL;
    assert IsDecimalDigit(s[0]);
    StrToULRun(s);
    DigitRunUnique(s, 10, |s|);
    assert s[..|s|] == s;
  }

  /** Decimal text without a leading zero is also decimal to `strtoul` with base 0. */
  lemma StrToULDetects(s: string)
    requires IsDecimal(s) && s[0] != '0'
    ensures StrToUL(s, 0) == StrToUL(s, 10)
  {
    hide Value, Convert;
    assert IsDecimalDigit(s[0]);
    SpanUnique(s, WHITESPACE, 0);
    assert s[0..] == s;
  }

  /** `strtoul` reads back every 64-bit number that `%lu` prints. */
  lemma StrToULOfDecimal(n: nat)
    requires n < TWO64
    ensures StrToUL(Decimal(n), 10).value == n
  {
    StrToULDecimal(Decimal(n));
    DecimalRoundTrip(n);
  }

  /** Whitespace, sign and the bases that `strtoul` detects, by example. */
  lemma StrToULSkips()
    ensures StrToUL(" 7", 10) == Number(7, 2, false)
    ensures StrToUL("-1", 10) == Number(TWO64 - 1, 2, false)
  {
    SpanUnique(" 7", WHITESPACE, 1);
    SpanUnique("-1", WHITESPACE, 0);
    assert " 7"[1..] == "7" && "-1"[0..] == "-1" && "-1"[1..] == "1";
    DigitRunUnique("7", 10, 1);
    DigitRunUnique("1", 10, 1);
    assert "7"[..1] == "7" && "1"[..1] == "1" && "7"[..0] == "" && "1"[..0] == "";
    assert Value("7", 10) == 7 && Value("1", 10) == 1;
  }

  lemma StrToULOctal()
    ensures StrToUL("010", 0) == Number(8, 3, false)
  {
    SpanUnique("010", WHITESPACE, 0);
    assert "010"[0..] == "010";
    DigitRunUnique("010", 8, 3);
    assert "010"[..3] == "010" && "010"[..2] == "01" && "01"[..1] == "0" && "0"[..0] == "";
    assert Value("0", 8) == 0 && Value("01", 8) == 1 && Value("010", 8) == 8;
  }

  lemma StrToULHex()
    ensures StrToUL("0x1f", 0) == Number(31, 4, false)
  {
    SpanUnique("0x1f", WHITESPACE, 0);
    assert "0x1f"[0..] == "0x1f" && "0x1f"[2..] == "1f";
    DigitRunUnique("1f", 16, 2);
    assert "1f"[..2] == "1f" && "1f"[..1] == "1" && "1"[..0] == "";
    assert Value("1", 16) == 1 && Value("1f", 16) == 31;
  }
}
