/**
 The list of platform configuration registers on the command line and the
 selection bitmap made from it (src/tpm.c:207-214 and 635-667). The number of
 registers, `TPM2_PT_PCR_COUNT`, is the length of the index array.
 */
module Pcr {
  import opened Numbers

  // ----- The list -----

  /** The maximal runs of decimal digits in `s`, in order. */
  function DigitRuns(s: string): (runs: seq<string>)
    decreases |s|
  {
    if s == "" then []
    else if IsDecimalDigit(s[0]) then
      var n := DigitRun(s, 10);
      [s[..n]] + DigitRuns(s[n..])
    else DigitRuns(s[1..])
  }

  /** The runs as numbers, if there are at most `count` of them and each is below `count`. */
  predicate InRange(runs: seq<string>, count: nat) {
    |runs| <= count && forall i :: 0 <= i < |runs| ==> Value(runs[i], 10) < count
  }

  function Values(runs: seq<string>): (ns: seq<nat>)
    ensures |ns| == |runs|
    ensures forall i :: 0 <= i < |ns| ==> ns[i] == Value(runs[i], 10)
  {
    seq(|runs|, i requires 0 <= i < |runs| => Value(runs[i], 10))
  }

  /** The indices an argument names; none if any of them is out of range or there are too many. */
  function PcrList(s: string, count: nat): (ns: seq<nat>) {
    if InRange(DigitRuns(s), count) then Values(DigitRuns(s)) else []
  }

  /** What is left of the runs behind the one at the front of `s`. */
  lemma RunsStep(runs: seq<string>, i: nat, s: string)
    requires i <= |runs| && runs[i..] == DigitRuns(s) && s != ""
    ensures IsDecimalDigit(s[0]) ==>
              var n := DigitRun(s, 10);
              i < |runs| && runs[i] == s[..n] && runs[i + 1..] == DigitRuns(s[n..])
    ensures !IsDecimalDigit(s[0]) ==> runs[i..] == DigitRuns(s[1..])
  {
    if IsDecimalDigit(s[0]) {
      assert runs[i] == runs[i..][0];
      assert runs[i + 1..] == runs[i..][1..];
    }
  }

  /** The numbers taken so far. */
  ghost predicate Taken(ns: seq<nat>, runs: seq<string>, count: nat) {
    InRange(runs, count) && ns == Values(runs)
  }

  lemma TakenNext(ns: seq<nat>, runs: seq<string>, i: nat, v: nat, count: nat)
    requires i < |runs| && i < count && Taken(ns, runs[..i], count) && v == Value(runs[i], 10) < count
    ensures Taken(ns + [v], runs[..i + 1], count)
  {
    hide Value;
    assert runs[..i + 1] == runs[..i] + [runs[i]];
  }

  /**
   `cominitTpmParsePcrIndexes`: walks over the argument, converting at every digit
   and stepping over everything else; any bad number empties the list.
   */
  method ParsePcrIndexes(pcrSeal: array<nat>, argValue: string) returns (count: nat)
    requires pcrSeal.Length <= TWO64
    modifies pcrSeal
    ensures count <= pcrSeal.Length && pcrSeal[..count] == PcrList(argValue, pcrSeal.Length)
  {
    hide StrToUL, DigitRun, DigitRuns, Value;
    var p, i := 0, 0;
    ghost var runs := DigitRuns(argValue);
    assert argValue[0..] == argValue;
    while p < |argValue|
      invariant 0 <= p <= |argValue| && i <= pcrSeal.Length && i <= |runs|
      invariant runs[i..] == DigitRuns(argValue[p..])
      invariant Taken(pcrSeal[..i], runs[..i], pcrSeal.Length)
    {
      RunsStep(runs, i, argValue[p..]);
      if IsDecimalDigit(argValue[p]) {
        StrToULRun(argValue[p..]);
        var number := StrToUL(argValue[p..], 10);
        if number.range || number.value >= pcrSeal.Length || i >= pcrSeal.Length {
          return 0;
        }
        TakenNext(pcrSeal[..i], runs, i, number.value, pcrSeal.Length);
        assert argValue[p..][number.end..] == argValue[p + number.end..];
        pcrSeal[i] := number.value;
        p, i := p + number.end, i + 1;
      } else {
        assert argValue[p..][1..] == argValue[p + 1..];
        p := p + 1;
      }
    }
    assert argValue[p..] == "";
    RunsOfEmpty();
    assert runs[..i] == runs;
    return i;
  }

  lemma RunsOfEmpty()
    ensures DigitRuns("") == []
  {
  }

  // ----- What the list means -----

  predicate DigitFree(s: string) {
    forall i :: 0 <= i < |s| ==> !IsDecimalDigit(s[i])
  }

  /** Runs of digits with a text in front of, between and behind them. */
  function Weave(seps: seq<string>, runs: seq<string>): (s: string)
    requires |seps| == |runs| + 1
  {
    if runs == [] then seps[0] else seps[0] + (runs[0] + Weave(seps[1..], runs[1..]))
  }

  /** The texts have no digits, and those between two runs are not empty; the runs have only digits. */
  ghost predicate Alternate(seps: seq<string>, runs: seq<string>) {
    && |seps| == |runs| + 1
    && (forall i :: 0 <= i < |seps| ==> DigitFree(seps[i]))
    && (forall i :: 0 < i < |runs| ==> seps[i] != "")
    && (forall i :: 0 <= i < |runs| ==> IsDecimal(runs[i]))
  }

  lemma {:induction false} RunsBehindSeparator(sep: string, s: string)
    requires DigitFree(sep)
    ensures DigitRuns(sep + s) == DigitRuns(s)
  {
    if sep == "" {
      assert sep + s == s;
    } else {
      assert (sep + s)[1..] == sep[1..] + s;
      assert !IsDecimalDigit(sep[0]);
      RunsBehindSeparator(sep[1..], s);
    }
  }

  lemma RunsOfDecimal(d: string, s: string)
    requires IsDecimal(d) && (s != "" ==> !IsDecimalDigit(s[0]))
    ensures DigitRuns(d + s) == [d] + DigitRuns(s)
  {
    var t := d + s;
    assert IsDecimalDigit(d[0]);
    forall i | 0 <= i < |d| ensures DigitValue(t[i]) < 10 { assert IsDecimalDigit(d[i]); }
    DigitRunUnique(t, 10, |d|);
    assert t[..|d|] == d && t[|d|..] == s;
  }

  lemma AlternateRest(seps: seq<string>, runs: seq<string>)
    requires Alternate(seps, runs) && runs != []
    ensures Alternate(seps[1..], runs[1..])
    ensures var rest := Weave(seps[1..], runs[1..]); rest != "" ==> !IsDecimalDigit(rest[0])
  {
    assert forall i :: 0 <= i < |runs| ==> seps[1..][i] == seps[i + 1];
    assert forall i :: 0 <= i < |runs| - 1 ==> runs[1..][i] == runs[i + 1];
    var rest := Weave(seps[1..], runs[1..]);
    if seps[1] != "" { assert rest[0] == seps[1][0]; }
  }

  /** The runs of a woven text are the runs it was woven from. */
  lemma {:induction false} RunsOfWeave(seps: seq<string>, runs: seq<string>)
    requires Alternate(seps, runs)
    ensures DigitRuns(Weave(seps, runs)) == runs
    decreases |runs|
  {
    hide DigitFree;
    if runs == [] {
      RunsBehindSeparator(seps[0], "");
      assert seps[0] + "" == seps[0];
    } else {
      var rest := Weave(seps[1..], runs[1..]);
      AlternateRest(seps, runs);
      RunsOfWeave(seps[1..], runs[1..]);
      RunsOfDecimal(runs[0], rest);
      RunsBehindSeparator(seps[0], runs[0] + rest);
    }
  }

  /** Every text is woven from its runs. */
  lemma {:induction false} Unweave(s: string) returns (seps: seq<string>)
    ensures Alternate(seps, DigitRuns(s)) && Weave(seps, DigitRuns(s)) == s
    decreases |s|
  {
    if s == "" {
      seps := [""];
    } else if IsDecimalDigit(s[0]) {
      var n := DigitRun(s, 10);
      DigitRunProps(s, 10);
      var tail := Unweave(s[n..]);
      seps := [""] + tail;
      UnweaveRun(s, n, tail);
    } else {
      var tail := Unweave(s[1..]);
      seps := [[s[0]] + tail[0]] + tail[1..];
      UnweaveChar(s, tail);
    }
  }

  lemma UnweaveRun(s: string, n: nat, tail: seq<string>)
    requires s != "" && IsDecimalDigit(s[0]) && n == DigitRun(s, 10) && 0 < n <= |s|
    requires (forall i :: 0 <= i < n ==> DigitValue(s[i]) < 10) && (n < |s| ==> DigitValue(s[n]) >= 10)
    requires Alternate(tail, DigitRuns(s[n..])) && Weave(tail, DigitRuns(s[n..])) == s[n..]
    ensures Alternate([""] + tail, DigitRuns(s)) && Weave([""] + tail, DigitRuns(s)) == s
  {
    assert DigitRuns(s) == [s[..n]] + DigitRuns(s[n..]);
    assert s == s[..n] + s[n..];
    assert IsDecimal(s[..n]);
    assert n < |s| ==> !IsDecimalDigit(s[n]);
    hide DigitRuns, DigitRun;
    WeaveRun(s[..n], s[n..], tail, DigitRuns(s[n..]));
  }

  lemma WeaveRun(d: string, rest: string, tail: seq<string>, runs: seq<string>)
    requires IsDecimal(d) && (rest != "" ==> !IsDecimalDigit(rest[0]))
    requires Alternate(tail, runs) && Weave(tail, runs) == rest
    ensures Alternate([""] + tail, [d] + runs) && Weave([""] + tail, [d] + runs) == d + rest
  {
    hide DigitFree;
    if runs != [] && tail[0] == "" {
      assert false;
    }
    assert ([""] + tail)[1..] == tail && ([d] + runs)[1..] == runs;
    assert "" + (d + rest) == d + rest;
    AlternateCons(d, tail, runs);
  }

  lemma AlternateCons(d: string, tail: seq<string>, runs: seq<string>)
    requires IsDecimal(d) && Alternate(tail, runs) && (runs != [] ==> tail[0] != "")
    ensures Alternate([""] + tail, [d] + runs)
  {
    assert DigitFree("");
    hide DigitFree, IsDecimal;
  }

  lemma UnweaveChar(s: string, tail: seq<string>)
    requires s != "" && !IsDecimalDigit(s[0])
    requires Alternate(tail, DigitRuns(s[1..])) && Weave(tail, DigitRuns(s[1..])) == s[1..]
    ensures var seps := [[s[0]] + tail[0]] + tail[1..];
            Alternate(seps, DigitRuns(s)) && Weave(seps, DigitRuns(s)) == s
  {
    assert DigitRuns(s) == DigitRuns(s[1..]);
    hide DigitRuns;
    WeaveChar(s[0], tail, DigitRuns(s[1..]));
  }

  lemma WeaveChar(c: char, tail: seq<string>, runs: seq<string>)
    requires !IsDecimalDigit(c) && Alternate(tail, runs)
    ensures var seps := [[c] + tail[0]] + tail[1..];
            Alternate(seps, runs) && Weave(seps, runs) == [c] + Weave(tail, runs)
  {
    var seps := [[c] + tail[0]] + tail[1..];
    assert DigitFree(tail[0]);
    assert DigitFree(seps[0]);
    hide DigitFree, IsDecimal;
    assert forall i :: 0 < i < |seps| ==> seps[i] == tail[i];
    assert seps[1..] == tail[1..];
    if runs != [] {
      var rest := runs[0] + Weave(tail[1..], runs[1..]);
      assert [c] + tail[0] + rest == [c] + (tail[0] + rest);
    }
  }

  /** The runs of any text, exactly: it alternates between them and texts without digits. */
  lemma DigitRunsExact(s: string, runs: seq<string>)
    ensures DigitRuns(s) == runs <==> exists seps :: Alternate(seps, runs) && Weave(seps, runs) == s
  {
    hide Weave, DigitRuns, DigitFree, IsDecimal;
    if DigitRuns(s) == runs {
      var seps := Unweave(s);
      assert Alternate(seps, runs) && Weave(seps, runs) == s;
    }
    forall seps | Alternate(seps, runs) && Weave(seps, runs) == s ensures DigitRuns(s) == runs {
      RunsOfWeave(seps, runs);
    }
  }

  /** Any text around and between the numbers, leading zeros included, gives the same list. */
  lemma PcrListRoundTrip(seps: seq<string>, runs: seq<string>, count: nat)
    requires Alternate(seps, runs)
    ensures var ns := PcrList(Weave(seps, runs), count);
            if |runs| <= count && forall i :: 0 <= i < |runs| ==> Value(runs[i], 10) < count
            then |ns| == |runs| && forall i :: 0 <= i < |runs| ==> ns[i] == Value(runs[i], 10)
            else ns == []
  {
    RunsOfWeave(seps, runs);
  }

  // ----- The selection bitmap -----

  /** `1u << j`. */
  function Mask(j: nat): (m: bv8)
    requires j < 8
  {
    if j == 0 then 1 else if j == 1 then 2 else if j == 2 then 4 else if j == 3 then 8
    else if j == 4 then 16 else if j == 5 then 32 else if j == 6 then 64 else 128
  }

  predicate Bit(b: bv8, j: nat)
    requires j < 8
  {
    b & Mask(j) != 0
  }

  /** Register `k` is selected in the bitmap. */
  predicate Selected(sel: seq<bv8>, k: nat)
    requires k < 8 * |sel|
  {
    Bit(sel[k / 8], k % 8)
  }

  /** The loop of `cominitTpmSelectPcr` on values: one bit set for each index. */
  function SelectAll(sel: seq<bv8>, ns: seq<nat>): (r: seq<bv8>)
    requires forall i :: 0 <= i < |ns| ==> ns[i] < 8 * |sel|
    ensures |r| == |sel|
    decreases |ns|
  {
    if ns == [] then sel
    else
      var k := ns[|ns| - 1];
      var s := SelectAll(sel, ns[..|ns| - 1]);
      s[k / 8 := s[k / 8] | Mask(k % 8)]
  }

  /** All indices lie in a bitmap of `room` bytes. */
  predicate Inside(ns: seq<nat>, room: nat) {
    forall i :: 0 <= i < |ns| ==> ns[i] < 8 * room
  }

  /**
   `cominitTpmSelectPcr`, up to the first access behind the bitmap: stays inside exactly
   when every index does, and then sets their bits.
   */
  method SelectPcr(sel: array<bv8>, pcrSeal: seq<nat>) returns (inside: bool)
    modifies sel
    ensures inside <==> Inside(pcrSeal, sel.Length)
    ensures inside ==> sel[..] == SelectAll(old(sel[..]), pcrSeal)
  {
    var i := 0;
    assert pcrSeal[..0] == [];
    while i < |pcrSeal|
      invariant 0 <= i <= |pcrSeal| && Inside(pcrSeal[..i], sel.Length)
      invariant sel[..] == SelectAll(old(sel[..]), pcrSeal[..i])
    {
      var k := pcrSeal[i];
      if k / 8 >= sel.Length { return false; }
      assert pcrSeal[..i + 1][..i] == pcrSeal[..i];
      sel[k / 8] := sel[k / 8] | Mask(k % 8);
      i := i + 1;
    }
    assert pcrSeal[..i] == pcrSeal;
    return true;
  }

  /** An argument the list parser accepts if it knows enough registers, outside a bitmap of four bytes. */
  lemma ListLeavesBitmap(count: nat)
    requires count > 32
    ensures PcrList("32", count) == [32] && !Inside(PcrList("32", count), 4)
  {
    var seps, runs := ["", ""], ["32"];
    assert Weave(seps[1..], runs[1..]) == "";
    assert Weave(seps, runs) == "32";
    RunsOfWeave(seps, runs);
    assert "32"[..1] == "3";
    assert Value("3", 10) == 3;
    assert Value("32", 10) == 32;
    assert Values(["32"]) == [32];
  }

  /** The mask is a one shifted to its place. */
  lemma MaskIsShift(j: nat)
    requires j < 8
    ensures Mask(j) == (1 as bv8) << j
  {
    if j == 0 {
    } else if j == 1 {
    } else if j == 2 {
    } else if j == 3 {
    } else if j == 4 {
    } else if j == 5 {
    } else if j == 6 {
    } else {
    }
  }

  lemma OrMask(b: bv8, i: nat, j: nat)
    requires i < 8 && j < 8
    ensures Bit(b | Mask(i), j) <==> Bit(b, j) || i == j
  {
  }

  /** A bit is set exactly if it was set before or its index is in the list. */
  lemma {:induction false} SelectAllBits(sel: seq<bv8>, ns: seq<nat>, k: nat)
    requires k < 8 * |sel| && forall i :: 0 <= i < |ns| ==> ns[i] < 8 * |sel|
    ensures Selected(SelectAll(sel, ns), k) <==> Selected(sel, k) || k in ns
    decreases |ns|
  {
    hide Mask, Bit;
    if ns == [] {
    } else {
      var n := ns[|ns| - 1];
      var s := SelectAll(sel, ns[..|ns| - 1]);
      SelectAllBits(sel, ns[..|ns| - 1], k);
      OrMask(s[n / 8], n % 8, k % 8);
      assert k in ns <==> k in ns[..|ns| - 1] || k == n by { assert ns == ns[..|ns| - 1] + [n]; }
    }
  }

  lemma SameBits(a: bv8, b: bv8)
    requires forall j :: 0 <= j < 8 ==> (Bit(a, j) <==> Bit(b, j))
    ensures a == b
  {
    assert (Bit(a, 0) <==> Bit(b, 0)) && (Bit(a, 1) <==> Bit(b, 1));
    assert (Bit(a, 2) <==> Bit(b, 2)) && (Bit(a, 3) <==> Bit(b, 3));
    assert (Bit(a, 4) <==> Bit(b, 4)) && (Bit(a, 5) <==> Bit(b, 5));
    assert (Bit(a, 6) <==> Bit(b, 6)) && (Bit(a, 7) <==> Bit(b, 7));
  }

  /** The three bytes of `TPMS_PCR_SELECTION` that the TPM looks at (`sizeofSelect` is 3). */
  const SELECT_SIZE: nat := 3

  /** The policy selection for a list of indices, in a bitmap of `room` bytes. */
  function PolicySelection(ns: seq<nat>, room: nat): (sel: seq<bv8>)
    requires SELECT_SIZE <= room && forall i :: 0 <= i < |ns| ==> ns[i] < 8 * room
    ensures |sel| == SELECT_SIZE
  {
    SelectAll(seq(room, _ => 0 as bv8), ns)[..SELECT_SIZE]
  }

  /** The bit of register `k`, spelled out: bit `k % 8` of byte `k / 8` is set exactly if `k` is listed. */
  lemma SelectionBit(ns: seq<nat>, room: nat, k: nat)
    requires 3 <= room && forall i :: 0 <= i < |ns| ==> ns[i] < 8 * room
    requires k < 24
    ensures |PolicySelection(ns, room)| == 3
    ensures PolicySelection(ns, room)[k / 8] & ((1 as bv8) << (k % 8)) != 0 <==> k in ns
  {
    PolicySelectionBits(ns, room, k);
    MaskIsShift(k % 8);
    hide Mask, PolicySelection;
  }

  lemma PolicySelectionBits(ns: seq<nat>, room: nat, k: nat)
    requires SELECT_SIZE <= room && forall i :: 0 <= i < |ns| ==> ns[i] < 8 * room
    requires k < 8 * SELECT_SIZE
    ensures Selected(PolicySelection(ns, room), k) <==> k in ns
  {
    SelectAllBits(seq(room, _ => 0 as bv8), ns, k);
  }

  /**
   Two lists naming the same registers below 24 give the same selection, whatever
   their order and repetitions; and only such lists do.
   */
  lemma SameSelection(ns: seq<nat>, ms: seq<nat>, room: nat)
    requires SELECT_SIZE <= room
    requires forall i :: 0 <= i < |ns| ==> ns[i] < 8 * room
    requires forall i :: 0 <= i < |ms| ==> ms[i] < 8 * room
    ensures PolicySelection(ns, room) == PolicySelection(ms, room) <==>
            (forall k :: 0 <= k < 24 ==> (k in ns <==> k in ms))
  {
    hide Bit, PolicySelection;
    var a, b := PolicySelection(ns, room), PolicySelection(ms, room);
    forall k | 0 <= k < 24
      ensures Selected(a, k) <==> k in ns
      ensures Selected(b, k) <==> k in ms
    {
      PolicySelectionBits(ns, room, k);
      PolicySelectionBits(ms, room, k);
    }
    if forall k :: 0 <= k < 24 ==> (k in ns <==> k in ms) {
      SameSelected(a, b);
    } else {
      var k :| 0 <= k < 24 && !(k in ns <==> k in ms);
      assert Selected(a, k) != Selected(b, k);
    }
  }

  lemma SameSelected(a: seq<bv8>, b: seq<bv8>)
    requires |a| == |b| && forall k :: 0 <= k < 8 * |a| ==> (Selected(a, k) <==> Selected(b, k))
    ensures a == b
  {
    hide Bit;
    forall i | 0 <= i < |a| ensures a[i] == b[i] {
      forall j | 0 <= j < 8 ensures Bit(a[i], j) <==> Bit(b[i], j) {
        var k := 8 * i + j;
        assert k / 8 == i && k % 8 == j;
        assert Selected(a, k) <==> Selected(b, k);
      }
      SameBits(a[i], b[i]);
    }
  }

  /** The registers the TPM sees selected. */
  function SelectedSet(sel: seq<bv8>): (s: set<nat>) {
    set k: nat | k < 8 * |sel| && Selected(sel, k)
  }

  /** The selection is the whole list exactly when no index is 24 or more. */
  lemma SelectionIsWholeList(ns: seq<nat>, room: nat)
    requires SELECT_SIZE <= room && forall i :: 0 <= i < |ns| ==> ns[i] < 8 * room
    ensures SelectedSet(PolicySelection(ns, room)) == (set k | k in ns) <==>
            (forall i :: 0 <= i < |ns| ==> ns[i] < 24)
  {
    var sel := PolicySelection(ns, room);
    forall k: nat | k < 24 ensures k in SelectedSet(sel) <==> k in ns {
      PolicySelectionBits(ns, room, k);
    }
    if forall i :: 0 <= i < |ns| ==> ns[i] < 24 {
    } else {
      var i :| 0 <= i < |ns| && ns[i] >= 24;
      assert ns[i] in (set k | k in ns) && ns[i] !in SelectedSet(sel);
    }
  }
}
