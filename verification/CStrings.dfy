/**
 The part of the C library that the metadata parser leans on: NUL-terminated
 strings inside a buffer and the in-place tokeniser `strtok_r`. A C string is a
 `string`; a buffer is an `array<char>`; a pointer into it is an offset.
 */
module CStrings {

  const NUL: char := '\0'

  /** The byte 0xFF, which separates the blocks of the metadata string. */
  const SEPARATOR: char := '\U{00FF}'

  /** The delimiter argument `" "` of `strtok_r`. */
  const BLANK: set<char> := {' '}

  /** `strspn`: length of the longest prefix made of characters of `accept`. */
  function Span(s: string, accept: set<char>): (n: nat)
    ensures n <= |s|
  {
    if s != "" && s[0] in accept then 1 + Span(s[1..], accept) else 0
  }

  /** `strcspn`: length of the longest prefix without characters of `reject`. */
  function CSpan(s: string, reject: set<char>): (n: nat)
    ensures n <= |s|
  {
    if s != "" && s[0] !in reject then 1 + CSpan(s[1..], reject) else 0
  }

  lemma {:induction false} SpanProps(s: string, accept: set<char>)
    ensures var n := Span(s, accept);
            && (forall i :: 0 <= i < n ==> s[i] in accept)
            && (n < |s| ==> s[n] !in accept)
  {
    if s == "" || s[0] !in accept {
    } else {
      SpanProps(s[1..], accept);
      assert forall i :: 0 < i < Span(s, accept) ==> s[i] == s[1..][i - 1];
    }
  }

  lemma {:induction false} CSpanProps(s: string, reject: set<char>)
    ensures var n := CSpan(s, reject);
            && (forall i :: 0 <= i < n ==> s[i] !in reject)
            && (n < |s| ==> s[n] in reject)
  {
    if s == "" || s[0] in reject {
    } else {
      CSpanProps(s[1..], reject);
      assert forall i :: 0 < i < CSpan(s, reject) ==> s[i] == s[1..][i - 1];
    }
  }

  /** No other prefix length has these properties. */
  lemma {:induction false} SpanUnique(s: string, accept: set<char>, n: nat)
    requires n <= |s|
    requires forall i :: 0 <= i < n ==> s[i] in accept
    requires n < |s| ==> s[n] !in accept
    ensures Span(s, accept) == n
  {
    if n == 0 {
    } else {
      assert s[0] in accept;
      SpanUnique(s[1..], accept, n - 1);
    }
  }

  lemma {:induction false} CSpanUnique(s: string, reject: set<char>, n: nat)
    requires n <= |s|
    requires forall i :: 0 <= i < n ==> s[i] !in reject
    requires n < |s| ==> s[n] in reject
    ensures CSpan(s, reject) == n
  {
    if n == 0 {
    } else {
      assert s[0] !in reject;
      CSpanUnique(s[1..], reject, n - 1);
    }
  }

  // ----- C strings inside a buffer -----

  /** The C string at offset `p` of the buffer `mem` is `s`, with its terminator behind it. */
  ghost predicate IsStr(mem: seq<char>, p: int, s: string) {
    && 0 <= p < p + |s| + 1 <= |mem|
    && mem[p..p + |s|] == s
    && mem[p + |s|] == NUL
    && NUL !in s
  }

  /** A C string depends only on its own bytes and its terminator. */
  lemma IsStrFrame(mem: seq<char>, mem': seq<char>, p: int, s: string)
    requires IsStr(mem, p, s) && |mem| == |mem'|
    requires forall i :: p <= i <= p + |s| ==> mem'[i] == mem[i]
    ensures IsStr(mem', p, s)
  {
    assert mem'[p..p + |s|] == mem[p..p + |s|];
  }

  /** Moving a pointer forward inside a C string drops the characters passed. */
  lemma IsStrSuffix(mem: seq<char>, p: int, s: string, k: nat)
    requires IsStr(mem, p, s) && k <= |s|
    ensures IsStr(mem, p + k, s[k..])
  {
    assert mem[p + k..p + |s|] == mem[p..p + |s|][k..];
  }

  // ----- Tokens -----

  /** Result of taking one token off a string. */
  datatype Split = NoToken | Split(token: string, rest: string)

  /**
   One call of `strtok_r` on a value: skip delimiters, take the token, drop the
   one delimiter behind it. With no delimiters at all the token is everything
   that is left.
   */
  function NextToken(s: string, delims: set<char>): (r: Split)
    ensures r.Split? ==> r.token != "" && |r.rest| < |s|
    ensures r.NoToken? <==> Span(s, delims) == |s|
  {
    SpanProps(s, delims);
    var u := s[Span(s, delims)..];
    var m := CSpan(u, delims);
    if u == "" then NoToken
    else Split(u[..m], if m == |u| then "" else u[m + 1..])
  }

  /** A token holds no delimiter; neither the token nor the rest holds a character of its own. */
  lemma NextTokenChars(s: string, delims: set<char>)
    ensures NextToken(s, delims).Split? ==>
              && (forall c :: c in NextToken(s, delims).token ==> c in s && c !in delims)
              && (forall c :: c in NextToken(s, delims).rest ==> c in s)
  {
    CSpanProps(s[Span(s, delims)..], delims);
  }

  /** The shape of a successful `NextToken`: delimiters, the token, and the one delimiter behind it. */
  lemma NextTokenShape(s: string, delims: set<char>, t: string, rest: string)
    requires NextToken(s, delims) == Split(t, rest)
    ensures var lead := Span(s, delims);
            && lead + |t| <= |s| && s[lead..lead + |t|] == t
            && (lead + |t| == |s| ==> rest == "")
            && (lead + |t| < |s| ==> s[lead + |t|] in delims && s[lead + |t| + 1..] == rest)
  {
    hide Span, CSpan;
    var lead := Span(s, delims);
    CutShape(s, lead, CSpan(s[lead..], delims));
    CSpanProps(s[lead..], delims);
  }

  lemma CutShape(s: string, n: nat, m: nat)
    requires n + m <= |s|
    ensures s[n..][..m] == s[n..n + m]
    ensures n + m < |s| ==> s[n..][m] == s[n + m] && s[n..][m + 1..] == s[n + m + 1..]
  {
  }

  /** All space-separated tokens of a string. */
  function Tokens(s: string): (ts: seq<string>)
    decreases |s|
  {
    match NextToken(s, BLANK)
    case NoToken => []
    case Split(t, r) => [t] + Tokens(r)
  }

  /** A token: not empty and free of spaces. */
  predicate IsWord(w: string) {
    w != "" && ' ' !in w
  }

  lemma {:induction false} TokensAreWords(s: string)
    ensures forall t :: t in Tokens(s) ==> IsWord(t) && (NUL !in s ==> NUL !in t)
    decreases |s|
  {
    match NextToken(s, BLANK)
    case NoToken =>
    case Split(t, r) =>
      NextTokenChars(s, BLANK);
      TokensAreWords(r);
  }

  lemma NextTokenOfWord(w: string, s: string)
    requires IsWord(w)
    ensures NextToken(w, BLANK) == Split(w, "")
    ensures NextToken(w + " " + s, BLANK) == Split(w, s)
  {
    var t := w + " " + s;
    assert w[0] in w && t[0] == w[0];
    assert w[0..] == w && t[0..] == t;
    CSpanUnique(w, BLANK, |w|);
    CSpanUnique(t, BLANK, |w|);
    assert w[..|w|] == w && t[..|w|] == w && t[|w| + 1..] == s;
  }

  lemma NextTokenLeadingSpace(s: string)
    ensures NextToken(" " + s, BLANK) == NextToken(s, BLANK)
  {
    var n := Span(s, BLANK);
    var t := " " + s;
    assert t[1..] == s && t[0] in BLANK;
    assert t[n + 1..] == s[n..];
  }

  /** A space always separates: the tokens of both sides, in order. */
  lemma {:induction false} TokensSplit(a: string, b: string)
    ensures Tokens(a + " " + b) == Tokens(a) + Tokens(b)
    decreases |a|
  {
    if a == "" {
      assert a + " " + b == " " + b;
      NextTokenLeadingSpace(b);
    } else if a[0] == ' ' {
      var c := a[1..];
      assert a == " " + c;
      assert a + " " + b == " " + (c + " " + b);
      NextTokenLeadingSpace(c);
      NextTokenLeadingSpace(c + " " + b);
      TokensSplit(c, b);
    } else {
      CSpanProps(a, BLANK);
      TokensSplitAtWord(a, b, CSpan(a, BLANK));
    }
  }

  lemma {:induction false} TokensSplitAtWord(a: string, b: string, m: nat)
    requires 0 < m <= |a| && IsWord(a[..m]) && (m < |a| ==> a[m] == ' ')
    ensures Tokens(a + " " + b) == Tokens(a) + Tokens(b)
    decreases |a|, 0
  {
    hide NextToken, Span, CSpan;
    var w := a[..m];
    if m == |a| {
      assert a == w;
      NextTokenOfWord(w, b);
    } else {
      var r := a[m + 1..];
      assert a == w + " " + r;
      assert a + " " + b == w + " " + (r + " " + b);
      TokensCons(w, r);
      TokensCons(w, r + " " + b);
      TokensSplit(r, b);
    }
  }

  lemma TokensCons(w: string, s: string)
    requires IsWord(w)
    ensures Tokens(w + " " + s) == [w] + Tokens(s)
  {
    NextTokenOfWord(w, s);
  }

  lemma TokensOfWord(w: string)
    requires IsWord(w)
    ensures Tokens(w) == [w]
  {
    NextTokenOfWord(w, "");
  }

  /** Words written one after the other, each followed by a space. */
  function Spaced(ws: seq<string>): (s: string) {
    if ws == [] then "" else ws[0] + " " + Spaced(ws[1..])
  }

  lemma SpacedCons(w: string, ws: seq<string>)
    ensures Spaced([w] + ws) == w + " " + Spaced(ws)
  {
    assert ([w] + ws)[1..] == ws;
  }

  /** Tokenising undoes `Spaced`. */
  lemma {:induction false} TokensSpaced(ws: seq<string>)
    requires forall w :: w in ws ==> IsWord(w)
    ensures Tokens(Spaced(ws)) == ws
  {
    if ws == [] {
    } else {
      TokensSplit(ws[0], Spaced(ws[1..]));
      TokensOfWord(ws[0]);
      TokensSpaced(ws[1..]);
    }
  }

  lemma {:induction false} SpacedAppend(ws: seq<string>, w: string)
    ensures Spaced(ws + [w]) == Spaced(ws) + w + " "
  {
    if ws == [] {
      assert [w][1..] == [];
    } else {
      SpacedAppend(ws[1..], w);
      assert (ws + [w])[1..] == ws[1..] + [w];
      assert Spaced(ws + [w]) == ws[0] + " " + Spaced(ws[1..] + [w]);
    }
  }

  // ----- strtok_r in place -----

  /** The `strspn` loop: walk over delimiters, stopping at the terminator. */
  method SkipDelims(buf: array<char>, p: nat, delims: set<char>, ghost s: string) returns (k: nat)
    requires IsStr(buf[..], p, s)
    ensures k == p + Span(s, delims)
  {
    k := p;
    while buf[k] != NUL && buf[k] in delims
      invariant p <= k <= p + |s|
      invariant forall i :: 0 <= i < k - p ==> s[i] in delims
      decreases p + |s| - k
    {
      assert buf[k] == buf[..][p + (k - p)];
      k := k + 1;
    }
    assert buf[k] == buf[..][p + (k - p)];
    SpanUnique(s, delims, k - p);
  }

  /** The `strcspn` loop: walk up to the next delimiter or the terminator. */
  method SkipToken(buf: array<char>, p: nat, delims: set<char>, ghost s: string) returns (k: nat)
    requires IsStr(buf[..], p, s)
    ensures k == p + CSpan(s, delims)
  {
    k := p;
    while buf[k] != NUL && buf[k] !in delims
      invariant p <= k <= p + |s|
      invariant forall i :: 0 <= i < k - p ==> s[i] !in delims
      decreases p + |s| - k
    {
      assert buf[k] == buf[..][p + (k - p)];
      k := k + 1;
    }
    assert buf[k] == buf[..][p + (k - p)];
    CSpanUnique(s, delims, k - p);
  }

  /**
   What `strtok_r` leaves behind when it took `t` off the string `s` at `p`: the
   token at `tok`, the rest at `save`, and no byte changed but the one behind the
   token, which lies inside the string that was given.
   */
  ghost predicate TokenTaken(mem: seq<char>, mem': seq<char>, p: int, s: string, t: Split,
                             tok: int, save: int)
  {
    && t.Split? && |mem'| == |mem|
    && p <= tok && tok + |t.token| <= save
    && IsStr(mem', tok, t.token)
    && IsStr(mem', save, t.rest)
    && save + |t.rest| == p + |s|
    && forall i :: 0 <= i < |mem| && i != tok + |t.token| ==> mem'[i] == mem[i]
  }

  /** A NUL written over character `m` cuts the string in two. */
  lemma IsStrCut(mem: seq<char>, mem': seq<char>, p: int, s: string, m: nat)
    requires IsStr(mem, p, s) && m < |s| && mem' == mem[p + m := NUL]
    ensures IsStr(mem', p, s[..m]) && IsStr(mem', p + m + 1, s[m + 1..])
  {
    IsStrSuffix(mem, p, s, m + 1);
    IsStrFrame(mem, mem', p + m + 1, s[m + 1..]);
    assert mem'[p..p + m] == mem[p..p + |s|][..m];
  }

  /** The token proper, from its first character on: find its end and cut there. */
  method CutToken(buf: array<char>, tok: nat, delims: set<char>, ghost u: string) returns (save: nat)
    requires IsStr(buf[..], tok, u)
    modifies buf
    ensures var m := CSpan(u, delims);
            TokenTaken(old(buf[..]), buf[..], tok, u,
                       Split(u[..m], if m == |u| then "" else u[m + 1..]), tok, save)
  {
    hide CSpan;
    ghost var mem := buf[..];
    ghost var m := CSpan(u, delims);
    save := SkipToken(buf, tok, delims, u);
    IsStrSuffix(mem, tok, u, m);
    if buf[save] != NUL {
      buf[save] := NUL;
      save := save + 1;
      IsStrCut(mem, buf[..], tok, u, m);
    } else {
      assert u[..m] == u;
    }
  }

  /**
   `strtok_r(p, delims, &save)`: overwrites the delimiter behind the token with
   NUL and leaves `save` behind it. `tok` is -1 for a null result.
   */
  method StrTokR(buf: array<char>, p: nat, delims: set<char>, ghost s: string)
    returns (tok: int, save: nat)
    requires IsStr(buf[..], p, s)
    modifies buf
    ensures NextToken(s, delims).NoToken? ==> tok == -1 && buf[..] == old(buf[..])
    ensures NextToken(s, delims).Split? ==>
              TokenTaken(old(buf[..]), buf[..], p, s, NextToken(s, delims), tok, save)
  {
    hide Span, CSpan;
    ghost var n := Span(s, delims);
    save := SkipDelims(buf, p, delims, s);
    IsStrSuffix(buf[..], p, s, n);
    if buf[save] == NUL {
      tok := -1;
    } else {
      tok := save;
      save := CutToken(buf, tok, delims, s[n..]);
    }
  }

  /** `strtok_r` changes nothing outside the string it was given. */
  lemma TokenTakenFrame(mem: seq<char>, mem': seq<char>, p: int, s: string, t: Split, tok: int, save: int)
    requires IsStr(mem, p, s) && TokenTaken(mem, mem', p, s, t, tok, save)
    ensures SameOutside(mem, mem', p, |s|)
  {
  }

  /** The buffers agree except possibly on the `n` bytes from `p` on. */
  ghost predicate SameOutside(mem: seq<char>, mem': seq<char>, p: int, n: nat) {
    && |mem'| == |mem|
    && forall i :: 0 <= i < |mem| && !(p <= i < p + n) ==> mem'[i] == mem[i]
  }

  lemma SameOutsideTrans(m0: seq<char>, m1: seq<char>, m2: seq<char>, p: int, n: nat, q: int, k: nat)
    requires SameOutside(m0, m1, p, n) && SameOutside(m1, m2, q, k) && p <= q && q + k <= p + n
    ensures SameOutside(m0, m2, p, n)
  {
  }

  /** A string that ends before another one starts survives changes to that other one. */
  lemma EarlierStrSurvives(mem: seq<char>, mem': seq<char>, a: int, x: string, b: int, y: string)
    requires IsStr(mem, a, x) && IsStr(mem, b, y) && a + |x| <= b
    requires SameOutside(mem, mem', b, |y|)
    ensures IsStr(mem', a, x)
  {
    assert y != "" ==> mem[b] == y[0];
    IsStrFrame(mem, mem', a, x);
  }

  /** With no delimiters `strtok_r` hands out everything that is left. */
  lemma RestToken(s: string)
    ensures NextToken(s, {}) == if s == "" then NoToken else Split(s, "")
  {
    CSpanUnique(s, {}, |s|);
    assert s[0..] == s && s[..|s|] == s;
  }

  /** Reading a C string out of the buffer. */
  method ReadStr(buf: array<char>, p: nat, ghost s: string) returns (r: string)
    requires IsStr(buf[..], p, s)
    ensures r == s
  {
    var end := SkipToken(buf, p, {}, s);
    CSpanUnique(s, {}, |s|);
    r := buf[p..end];
  }

  /** `strchr(p, c)` for a character other than NUL: -1 for a null result. */
  method StrChr(buf: array<char>, p: nat, c: char, ghost s: string) returns (r: int)
    requires IsStr(buf[..], p, s) && c != NUL
    ensures r == if CSpan(s, {c}) == |s| then -1 else p + CSpan(s, {c})
  {
    r := SkipToken(buf, p, {c}, s);
    CSpanProps(s, {c});
    if buf[r] == NUL { r := -1; }
  }

  /**
   `snprintf(buf + p, room, ...)` for the formatted text `text`: writes what fits and
   a terminator, and returns the full length.
   */
  method SnPrintF(buf: array<char>, p: nat, room: nat, text: string) returns (n: nat)
    requires 0 < room <= buf.Length - p && NUL !in text
    modifies buf
    ensures n == |text|
    ensures IsStr(buf[..], p, if |text| < room then text else text[..room - 1])
    ensures SameOutside(old(buf[..]), buf[..], p, room)
  {
    n := |text|;
    var k := if n < room then n else room - 1;
    forall i | 0 <= i < k { buf[p + i] := text[i]; }
    buf[p + k] := NUL;
    assert buf[..][p..p + k] == text[..k];
    assert text[..|text|] == text;
  }

  /** Two adjoining pieces make one string. */
  lemma IsStrConcat(mem: seq<char>, a: string, b: string)
    requires |a| <= |mem| && mem[..|a|] == a && NUL !in a && IsStr(mem, |a|, b)
    ensures IsStr(mem, 0, a + b)
  {
    assert mem[0..|a| + |b|] == mem[..|a|] + mem[|a|..|a| + |b|];
  }

  /** A string survives changes that all lie before it. */
  lemma LaterStrSurvives(mem: seq<char>, mem': seq<char>, p: int, n: nat, q: int, s: string)
    requires IsStr(mem, q, s) && SameOutside(mem, mem', p, n) && p + n <= q
    ensures IsStr(mem', q, s)
  {
    IsStrFrame(mem, mem', q, s);
  }

  lemma {:induction false} SpacedPrefix(ws: seq<string>, k: nat)
    requires k <= |ws|
    ensures |Spaced(ws[..k])| <= |Spaced(ws)|
  {
    if k == 0 {
    } else {
      SpacedPrefix(ws[1..], k - 1);
      assert ws[..k][1..] == ws[1..][..k - 1];
    }
  }
}
