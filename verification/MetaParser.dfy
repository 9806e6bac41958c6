/**
 The in-place metadata parser of src/meta.c: it tokenises the buffer it was
 given, overwriting delimiters, and fills the metadata structure field by field.
 Every method is proved against the functions of module `Metadata`.
 */
module MetaParser {
  import opened Wrappers
  import opened CStrings
  import opened Numbers
  import opened Metadata

  /** `cominitRfsMetaData_t`; the character arrays are the C strings they hold. */
  class RfsMeta {
    var devicePath: string
    var fsType: string
    var ro: bool
    var crypt: CryptOpt
    var dataSize: nat
    var table: string

    constructor (dev: string)
      ensures devicePath == dev && fsType == "" && !ro && crypt == NONE && dataSize == 0 && table == ""
    {
      devicePath, fsType, ro, crypt, dataSize, table := dev, "", false, NONE, 0, "";
    }
  }

  // ----- Taking fields off a block -----

  /** The token of `t` stands at `tok` and what is left of `s` at `save`, behind it. */
  ghost predicate At(mem: seq<char>, p: int, s: string, t: Split, tok: int, save: int) {
    && t.Split?
    && p <= tok && tok + |t.token| <= save && save + |t.rest| == p + |s|
    && IsStr(mem, tok, t.token)
    && IsStr(mem, save, t.rest)
  }

  /** `strtok_r` as the parser uses it. */
  method Take(buf: array<char>, p: nat, delims: set<char>, ghost s: string) returns (tok: int, save: nat)
    requires IsStr(buf[..], p, s)
    modifies buf
    ensures NextToken(s, delims).NoToken? <==> tok == -1
    ensures tok != -1 ==> tok >= 0 && At(buf[..], p, s, NextToken(s, delims), tok, save)
    ensures SameOutside(old(buf[..]), buf[..], p, |s|)
  {
    tok, save := StrTokR(buf, p, delims, s);
    if tok != -1 {
      TokenTakenFrame(old(buf[..]), buf[..], p, s, NextToken(s, delims), tok, save);
    }
  }

  /** A field that is read at once. */
  method TakeField(buf: array<char>, p: nat, ghost s: string) returns (field: Option<string>, save: nat)
    requires IsStr(buf[..], p, s)
    modifies buf
    ensures Tokens(s) == [] <==> field.None?
    ensures field.Some? ==> var t := NextToken(s, BLANK);
                            && t == Split(field.value, t.rest) && Tokens(s) == [field.value] + Tokens(t.rest)
                            && p <= save && save + |t.rest| == p + |s| && IsStr(buf[..], save, t.rest)
    ensures SameOutside(old(buf[..]), buf[..], p, |s|)
  {
    var tok: int;
    tok, save := Take(buf, p, BLANK, s);
    field := None;
    if tok != -1 {
      var word := ReadStr(buf, tok, NextToken(s, BLANK).token);
      field := Some(word);
    }
  }

  // ----- dm-verity -----

  /**
   The five `strtok_r` calls over the tail of the verity block: first and third
   field, if there are at least five.
   */
  method VerityFields(buf: array<char>, p: nat, ghost tail: string) returns (r: Option<(string, string)>)
    requires IsStr(buf[..], p, tail)
    modifies buf
    ensures r == if |Tokens(tail)| >= 5 then Some((Tokens(tail)[0], Tokens(tail)[2])) else None
    ensures SameOutside(old(buf[..]), buf[..], p, |tail|)
  {
    hide Tokens, NextToken;
    var size, p1 := TakeField(buf, p, tail);
    if size.None? { return None; }
    ghost var r1 := NextToken(tail, BLANK).rest;
    var hashSize, p2 := TakeField(buf, p1, r1);
    if hashSize.None? { return None; }
    ghost var r2 := NextToken(r1, BLANK).rest;
    var count, p3 := TakeField(buf, p2, r2);
    if count.None? { return None; }
    ghost var r3 := NextToken(r2, BLANK).rest;
    var hashStart, p4 := TakeField(buf, p3, r3);
    if hashStart.None? { return None; }
    var algorithm, _ := TakeField(buf, p4, NextToken(r3, BLANK).rest);
    if algorithm.None? { return None; }
    return Some((size.value, count.value));
  }

  /** `cominitGenVerityDmTbl`. */
  method GenVerityDmTbl(meta: RfsMeta, buf: array<char>, p: nat, ghost block: string) returns (ok: bool)
    requires IsStr(buf[..], p, block)
    modifies meta`table, meta`dataSize, buf
    ensures ok <==> meta.crypt == VERITY && VerityTable(meta.devicePath, block).Some?
    ensures ok ==> Some(Table(meta.table, meta.dataSize)) == VerityTable(meta.devicePath, block)
    ensures SameOutside(old(buf[..]), buf[..], p, |block|)
  {
    hide Tokens, NextToken, Product;
    ok := false;
    if meta.crypt != VERITY { return; }
    var versionAt, save := Take(buf, p, BLANK, block);
    if versionAt == -1 { return; }
    ghost var t := NextToken(block, BLANK);
    ghost var mem := buf[..];
    RestToken(t.rest);
    var tailAt, _ := Take(buf, save, {}, t.rest);
    if tailAt == -1 { return; }
    EarlierStrSurvives(mem, buf[..], versionAt, t.token, save, t.rest);
    var version := ReadStr(buf, versionAt, t.token);
    var tail := ReadStr(buf, tailAt, t.rest);
    var text := VerityText(meta.devicePath, version, tail);
    meta.table := Truncate(text, TABLE_SIZE);
    if |text| >= TABLE_SIZE { return; }
    var fields := VerityFields(buf, tailAt, t.rest);
    if fields.Some? {
      ok := true;
      meta.dataSize := Product(fields.value.0, fields.value.1);
    }
  }

  // ----- dm-integrity -----

  /**
   One option of the list: if it names a key, the text is cut in two behind the
   first colon of `::`, and the key is fetched and written out in hexadecimal.
   */
  method FormatOption(buf: array<char>, opt: nat, keyring: Keyring, ghost o: string) returns (r: Option<string>)
    requires IsStr(buf[..], opt, o) && Bounded(keyring)
    modifies buf
    ensures r == Resolve(o, keyring)
    ensures SameOutside(old(buf[..]), buf[..], opt, |o|)
  {
    hide Hex, TakesKey, DoubleColon;
    var text := ReadStr(buf, opt, o);
    if !NamesKey(text) { return Some(text); }
    var k := DoubleColon(text);
    ghost var mem := buf[..];
    buf[opt + k + 1] := NUL;
    IsStrCut(mem, buf[..], opt, o, k + 1);
    var desc := ReadStr(buf, opt + k + 2, o[k + 2..]);
    if desc !in keyring || |keyring[desc]| < 1 { return None; }
    var keyHex := new char[2 * KEY_MAX + 1];
    BytesToHex(keyHex, keyring[desc]);
    var head := ReadStr(buf, opt, o[..k + 1]);
    var digits := ReadStr(keyHex, 0, Hex(keyring[desc]));
    return Some(head + digits);
  }

  /** `snprintf(procOpt, n, "%s ", text)`: one more option at the end of the accumulated text. */
  method AppendOption(proc: array<char>, used: nat, text: string, ghost done: string) returns (ret: nat)
    requires used == |done| < proc.Length && IsStr(proc[..], 0, done) && NUL !in text
    modifies proc
    ensures ret == |text| + 1
    ensures used + ret < proc.Length ==> IsStr(proc[..], 0, done + text + " ")
  {
    ghost var mem := proc[..];
    ret := SnPrintF(proc, used, proc.Length - used, text + " ");
    if used + ret < proc.Length {
      assert proc[..][..used] == mem[..used] == done;
      IsStrConcat(proc[..], done, text + " ");
      assert done + (text + " ") == done + text + " ";
    }
  }

  lemma ResolvedNext(opts: seq<string>, k: nat, keyring: Keyring)
    requires k < |opts| && AllResolve(opts[..k], keyring) && Resolve(opts[k], keyring).Some?
    ensures AllResolve(opts[..k + 1], keyring)
    ensures Spaced(Resolved(opts[..k + 1], keyring)) ==
            Spaced(Resolved(opts[..k], keyring)) + Resolve(opts[k], keyring).value + " "
  {
    hide Resolve, Spaced;
    SpacedAppend(Resolved(opts[..k], keyring), Resolve(opts[k], keyring).value);
    assert Resolved(opts[..k + 1], keyring) == Resolved(opts[..k], keyring) + [Resolve(opts[k], keyring).value];
  }

  lemma ResolvedSoFar(opts: seq<string>, k: nat, keyring: Keyring)
    requires k <= |opts| && AllResolve(opts, keyring)
    ensures AllResolve(opts[..k], keyring)
    ensures |Spaced(Resolved(opts[..k], keyring))| <= |Spaced(Resolved(opts, keyring))|
  {
    SpacedPrefix(Resolved(opts, keyring), k);
    assert Resolved(opts[..k], keyring) == Resolved(opts, keyring)[..k];
  }

  /** The options resolve and their text fits into the option buffer. */
  predicate Fits(opts: seq<string>, keyring: Keyring) {
    AllResolve(opts, keyring) && |Spaced(Resolved(opts, keyring))| < TABLE_SIZE
  }

  /** The first `used` characters of the option buffer are the resolved options, terminated. */
  ghost predicate Accumulated(mem: seq<char>, used: nat, opts: seq<string>, keyring: Keyring) {
    && Fits(opts, keyring)
    && used == |Spaced(Resolved(opts, keyring))|
    && IsStr(mem, 0, Spaced(Resolved(opts, keyring)))
  }

  /** The body of the option loop, for option `k`. */
  method ProcessOption(buf: array<char>, opt: nat, proc: array<char>, used: nat, keyring: Keyring,
                       ghost opts: seq<string>, ghost k: nat)
    returns (ok: bool, used': nat)
    requires k < |opts| && IsStr(buf[..], opt, opts[k]) && Bounded(keyring)
    requires proc.Length == TABLE_SIZE && proc != buf
    requires Accumulated(proc[..], used, opts[..k], keyring)
    modifies buf, proc
    ensures ok ==> Accumulated(proc[..], used', opts[..k + 1], keyring)
    ensures !ok ==> !Fits(opts, keyring)
    ensures SameOutside(old(buf[..]), buf[..], opt, |opts[k]|)
  {
    ok, used' := false, used;
    var text := FormatOption(buf, opt, keyring, opts[k]);
    if text.None? { return; }
    ResolvedNext(opts, k, keyring);
    ResolveHasNoNul(opts[k], keyring);
    var ret := AppendOption(proc, used, text.value, Spaced(Resolved(opts[..k], keyring)));
    if ret >= TABLE_SIZE - used {
      if AllResolve(opts, keyring) { ResolvedSoFar(opts, k + 1, keyring); }
      return;
    }
    ok, used' := true, used + ret;
  }

  lemma TokensStep(opts: seq<string>, k: nat, left: string)
    requires k <= |opts| && opts[k..] == Tokens(left) && NextToken(left, BLANK).Split?
    ensures k < |opts| && opts[k] == NextToken(left, BLANK).token
    ensures opts[k + 1..] == Tokens(NextToken(left, BLANK).rest)
  {
    assert opts[k] == opts[k..][0];
    assert opts[k + 1..] == opts[k..][1..];
  }

  /**
   The option loop: when it goes through, the accumulated text is every option
   resolved and followed by a blank; it stops early exactly when a key is missing
   or the text would not fit.
   */
  method ProcessOptions(buf: array<char>, addOpts: nat, proc: array<char>, keyring: Keyring, ghost rest: string)
    returns (ok: bool)
    requires IsStr(buf[..], addOpts, rest) && Bounded(keyring)
    requires proc.Length == TABLE_SIZE && proc != buf
    modifies buf, proc
    ensures ok <==> Fits(Tokens(rest), keyring)
    ensures ok ==> IsStr(proc[..], 0, Spaced(Resolved(Tokens(rest), keyring)))
    ensures SameOutside(old(buf[..]), buf[..], addOpts, |rest|)
  {
    hide NextToken;
    ghost var opts := Tokens(rest);
    var opt, save := Take(buf, addOpts, BLANK, rest);
    var used := 0;
    proc[0] := NUL;
    ghost var at, left, k := addOpts, rest, 0;
    while opt != -1
      invariant addOpts <= at && at + |left| == addOpts + |rest|
      invariant opt == -1 <==> NextToken(left, BLANK).NoToken?
      invariant opt != -1 ==> opt >= 0 && At(buf[..], at, left, NextToken(left, BLANK), opt, save)
      invariant SameOutside(old(buf[..]), buf[..], addOpts, |rest|)
      invariant k <= |opts| && opts[k..] == Tokens(left)
      invariant Accumulated(proc[..], used, opts[..k], keyring)
      decreases |left|
    {
      ghost var t := NextToken(left, BLANK);
      TokensStep(opts, k, left);
      ghost var mem := buf[..];
      ok, used := ProcessOption(buf, opt, proc, used, keyring, opts, k);
      if !ok { return; }
      LaterStrSurvives(mem, buf[..], opt, |t.token|, save, t.rest);
      SameOutsideTrans(old(buf[..]), mem, buf[..], addOpts, |rest|, opt, |t.token|);
      mem := buf[..];
      at, left, k := save, t.rest, k + 1;
      opt, save := Take(buf, save, BLANK, t.rest);
      SameOutsideTrans(old(buf[..]), mem, buf[..], addOpts, |rest|, at, |left|);
    }
    assert opts[..k] == opts;
    ok := true;
  }

  lemma IntegrityTableUnfold(dev: string, block: string, keyring: Keyring)
    ensures NextToken(block, BLANK).NoToken? ==> IntegrityTable(dev, block, keyring).None?
    ensures NextToken(block, BLANK).Split? ==>
              var Split(blocks, s) := NextToken(block, BLANK);
              IntegrityTable(dev, block, keyring) ==
                if NextToken(s, BLANK).NoToken? then None
                else IntegrityTableAt(dev, blocks, NextToken(s, BLANK).token, NextToken(s, BLANK).rest, keyring)
  {
  }

  /** `cominitGenIntegrityDmTbl`. */
  method GenIntegrityDmTbl(meta: RfsMeta, buf: array<char>, p: nat, keyring: Keyring, ghost block: string)
    returns (ok: bool)
    requires IsStr(buf[..], p, block) && Bounded(keyring)
    modifies meta`table, meta`dataSize, buf
    ensures ok <==> meta.crypt == INTEGRITY && IntegrityTable(meta.devicePath, block, keyring).Some?
    ensures ok ==> Some(Table(meta.table, meta.dataSize)) == IntegrityTable(meta.devicePath, block, keyring)
    ensures SameOutside(old(buf[..]), buf[..], p, |block|)
  {
    hide IntegrityTable, IntegrityTableAt, Tokens, NextToken, Product;
    IntegrityTableUnfold(meta.devicePath, block, keyring);
    ok := false;
    if meta.crypt != INTEGRITY { return; }
    var blocksAt, p1 := Take(buf, p, BLANK, block);
    if blocksAt == -1 { return; }
    ghost var r1 := NextToken(block, BLANK).rest;
    var blocks := ReadStr(buf, blocksAt, NextToken(block, BLANK).token);
    ghost var mem := buf[..];
    var sizeAt, p2 := Take(buf, p1, BLANK, r1);
    SameOutsideTrans(old(buf[..]), mem, buf[..], p, |block|, p1, |r1|);
    if sizeAt == -1 { return; }
    ghost var size, r2 := NextToken(r1, BLANK).token, NextToken(r1, BLANK).rest;
    var blksize := ReadStr(buf, sizeAt, size);
    meta.dataSize := Product(blocks, blksize);
    mem := buf[..];
    ok := IntegrityRest(meta, buf, p2, sizeAt, keyring, blocks, size, r2);
    SameOutsideTrans(old(buf[..]), mem, buf[..], p, |block|, p2, |r2|);
  }

  lemma IntegrityTableAtUnfold(dev: string, blocks: string, size: string, s: string, keyring: Keyring)
    ensures NextToken(s, BLANK).NoToken? ==> IntegrityTableAt(dev, blocks, size, s, keyring).None?
    ensures NextToken(s, BLANK).Split? ==>
              var Split(declared, rest) := NextToken(s, BLANK);
              && IntegrityTableAt(dev, blocks, size, s, keyring) ==
                   IntegrityTableOf(dev, blocks, size, declared, rest, keyring)
              && (rest == "" ==> IntegrityTableAt(dev, blocks, size, s, keyring).None?)
  {
  }

  /** From the option count on. */
  method IntegrityRest(meta: RfsMeta, buf: array<char>, p: nat, sizeAt: nat, keyring: Keyring,
                       ghost blocks: string, ghost size: string, ghost s: string)
    returns (ok: bool)
    requires IsStr(buf[..], p, s) && IsStr(buf[..], sizeAt, size) && sizeAt + |size| <= p && Bounded(keyring)
    modifies meta`table, buf
    ensures SameOutside(old(buf[..]), buf[..], p, |s|)
    ensures ok <==> IntegrityTableAt(meta.devicePath, blocks, size, s, keyring).Some?
    ensures ok ==> Some(Table(meta.table, Product(blocks, size))) ==
                   IntegrityTableAt(meta.devicePath, blocks, size, s, keyring)
  {
    hide Product, IntegrityTableAt, IntegrityTableOf, Tokens, NextToken;
    IntegrityTableAtUnfold(meta.devicePath, blocks, size, s, keyring);
    ok := false;
    ghost var mem := buf[..];
    var declaredAt, p3 := Take(buf, p, BLANK, s);
    if declaredAt == -1 { return; }
    var declared := ReadStr(buf, declaredAt, NextToken(s, BLANK).token);
    ghost var rest := NextToken(s, BLANK).rest;
    RestToken(rest);
    var addOpts, _ := Take(buf, p3, {}, rest);
    if addOpts == -1 { return; }
    SameOutsideTrans(mem, mem, buf[..], p, |s|, p, |s|);
    EarlierStrSurvives(mem, buf[..], sizeAt, size, p, s);
    ok := IntegrityOptions(meta, buf, addOpts, sizeAt, declared, keyring, blocks, size, rest);
  }

  /** The options and the table text; the block size in front of them must survive the option loop. */
  method IntegrityOptions(meta: RfsMeta, buf: array<char>, addOpts: nat, sizeAt: nat, declared: string,
                          keyring: Keyring, ghost blocks: string, ghost size: string, ghost rest: string)
    returns (ok: bool)
    requires IsStr(buf[..], addOpts, rest) && rest != "" && Bounded(keyring)
    requires IsStr(buf[..], sizeAt, size) && sizeAt + |size| <= addOpts
    modifies meta`table, buf
    ensures SameOutside(old(buf[..]), buf[..], addOpts, |rest|)
    ensures ok <==> IntegrityTableOf(meta.devicePath, blocks, size, declared, rest, keyring).Some?
    ensures ok ==> Some(Table(meta.table, Product(blocks, size))) ==
                   IntegrityTableOf(meta.devicePath, blocks, size, declared, rest, keyring)
  {
    ok := false;
    ghost var mem := buf[..];
    var proc := new char[TABLE_SIZE];
    var fits := ProcessOptions(buf, addOpts, proc, keyring, rest);
    if !fits { return; }
    EarlierStrSurvives(mem, buf[..], sizeAt, size, addOpts, rest);
    var blksize := ReadStr(buf, sizeAt, size);
    var opts := ReadStr(proc, 0, Spaced(Resolved(Tokens(rest), keyring)));
    var text := IntegrityText(meta.devicePath, OptionCount(declared), blksize, opts);
    meta.table := Truncate(text, TABLE_SIZE);
    ok := |text| < TABLE_SIZE;
  }

  // ----- The whole string -----

  /** The four fields of the settings block; the version was looked at before. */
  method ParseSettings(meta: RfsMeta, buf: array<char>, p: nat, ghost block: string) returns (ok: bool)
    requires IsStr(buf[..], p, block)
    modifies meta`fsType, meta`ro, meta`crypt, buf
    ensures ok <==> SettingsOf(block).Some?
    ensures ok ==> Some(Settings(meta.fsType, meta.ro, meta.crypt)) == SettingsOf(block)
    ensures SameOutside(old(buf[..]), buf[..], p, |block|)
  {
    ok := false;
    var fields := SettingsFields(buf, p, block);
    if fields.Some? {
      var (fsType, mode, word) := fields.value;
      meta.fsType := Truncate(fsType, FSTYPE_SIZE);
      if mode == "ro" || mode == "rw" {
        meta.ro := mode == "ro";
        var crypt := CryptOf(word);
        if crypt.Some? {
          meta.crypt := crypt.value;
          ok := (meta.crypt ^ (VERITY | INTEGRITY)) != 0;
        }
      }
    }
  }

  method SettingsFields(buf: array<char>, p: nat, ghost block: string) returns (r: Option<(string, string, string)>)
    requires IsStr(buf[..], p, block)
    modifies buf
    ensures var t := Tokens(block);
            r == if |t| >= 4 then Some((t[1], t[2], t[3])) else None
    ensures SameOutside(old(buf[..]), buf[..], p, |block|)
  {
    hide Tokens, NextToken;
    var version, p1 := TakeField(buf, p, block);
    if version.None? { return None; }
    ghost var r1 := NextToken(block, BLANK).rest;
    var fsType, p2 := TakeField(buf, p1, r1);
    if fsType.None? { return None; }
    ghost var r2 := NextToken(r1, BLANK).rest;
    var mode, p3 := TakeField(buf, p2, r2);
    if mode.None? { return None; }
    var word, _ := TakeField(buf, p3, NextToken(r2, BLANK).rest);
    if word.None? { return None; }
    return Some((fsType.value, mode.value, word.value));
  }

  /** `strchr` for the separator and the NUL written over it. */
  method CutAtSeparator(buf: array<char>, p: nat, ghost s: string) returns (next: int)
    requires IsStr(buf[..], p, s)
    modifies buf
    ensures next == -1 <==> AtSeparator(s).None?
    ensures next != -1 ==> var (a, b) := AtSeparator(s).value;
                           next == p + |a| + 1 && IsStr(buf[..], p, a) && IsStr(buf[..], next, b)
    ensures SameOutside(old(buf[..]), buf[..], p, |s|)
  {
    ghost var mem := buf[..];
    next := StrChr(buf, p, SEPARATOR, s);
    if next != -1 {
      buf[next] := NUL;
      IsStrCut(mem, buf[..], p, s, CSpan(s, {SEPARATOR}));
      next := next + 1;
    }
  }

  /** The settings block and the table block of a metadata string; `None` without two separators. */
  ghost function Blocks(s: string): (r: Option<(string, string)>) {
    match AtSeparator(s)
    case None => None
    case Some((settings, blocks)) =>
      match AtSeparator(blocks)
      case None => None
      case Some((verint, _)) => Some((settings, verint))
  }

  /** Both cuts: the settings block stands at the start and the table block at `verintAt`. */
  method CutBlocks(buf: array<char>, ghost s: string) returns (verintAt: int)
    requires IsStr(buf[..], 0, s)
    modifies buf
    ensures verintAt == -1 <==> Blocks(s).None?
    ensures verintAt != -1 ==> var (settings, verint) := Blocks(s).value;
                               && verintAt == |settings| + 1 && verintAt + |verint| <= |s|
                               && IsStr(buf[..], 0, settings) && IsStr(buf[..], verintAt, verint)
    ensures SameOutside(old(buf[..]), buf[..], 0, |s|)
  {
    hide CSpan;
    verintAt := CutAtSeparator(buf, 0, s);
    if verintAt == -1 { return; }
    ghost var (settings, blocks) := AtSeparator(s).value;
    ghost var mem := buf[..];
    var cryptAt := CutAtSeparator(buf, verintAt, blocks);
    SameOutsideTrans(old(buf[..]), mem, buf[..], 0, |s|, verintAt, |blocks|);
    if cryptAt == -1 { return -1; }
    EarlierStrSurvives(mem, buf[..], 0, settings, verintAt, blocks);
  }

  /**
   `cominitParseMetadata` on the string `s` at the start of the buffer: succeeds
   exactly when `Parse` does and then holds what `Parse` says. The device path
   stays, and so does every byte from the terminator on, signature included.
   */
  method ParseMetadata(meta: RfsMeta, buf: array<char>, keyring: Keyring, ghost s: string) returns (ok: bool)
    requires IsStr(buf[..], 0, s) && Bounded(keyring)
    modifies meta, buf
    ensures meta.devicePath == old(meta.devicePath)
    ensures ok <==> Parse(s, meta.devicePath, keyring).Some?
    ensures ok ==> var m := Parse(s, meta.devicePath, keyring).value;
                   && Settings(meta.fsType, meta.ro, meta.crypt) == m.settings
                   && (m.table.Some? ==> Table(meta.table, meta.dataSize) == m.table.value)
                   && Holds(meta, m, old(meta.dataSize))
    ensures forall i :: |s| <= i < buf.Length ==> buf[i] == old(buf[i])
  {
    hide TableOf, SettingsOf, AtSeparator, Holds;
    ok := false;
    if buf[0] != '1' { return; }
    assert "1" <= s;
    var verintAt := CutBlocks(buf, s);
    if verintAt == -1 { return; }
    ghost var (settings, verint) := Blocks(s).value;
    ghost var mem := buf[..];
    ok := ParseSettings(meta, buf, 0, settings);
    SameOutsideTrans(old(buf[..]), mem, buf[..], 0, |s|, 0, |settings|);
    if !ok { return; }
    LaterStrSurvives(mem, buf[..], 0, |settings|, verintAt, verint);
    mem := buf[..];
    ok := GenTable(meta, buf, verintAt, keyring, verint);
    SameOutsideTrans(old(buf[..]), mem, buf[..], 0, |s|, verintAt, |verint|);
  }

  /** The structure says what `m` says; without a table the volume size keeps its old value. */
  ghost predicate Holds(meta: RfsMeta, m: Meta, size: nat)
    reads meta
  {
    && Settings(meta.fsType, meta.ro, meta.crypt) == m.settings
    && (m.table.Some? ==> Table(meta.table, meta.dataSize) == m.table.value)
    && (m.table.None? ==> meta.table == "" && meta.dataSize == size)
  }

  /** The table for the crypt option found in the settings. */
  method GenTable(meta: RfsMeta, buf: array<char>, p: nat, keyring: Keyring, ghost block: string) returns (ok: bool)
    requires IsStr(buf[..], p, block) && Bounded(keyring)
    modifies meta`table, meta`dataSize, buf
    ensures ok <==> TableOf(meta.crypt, meta.devicePath, block, keyring).Some?
    ensures ok ==> Holds(meta, Meta(Settings(meta.fsType, meta.ro, meta.crypt),
                                    TableOf(meta.crypt, meta.devicePath, block, keyring).value),
                         old(meta.dataSize))
    ensures SameOutside(old(buf[..]), buf[..], p, |block|)
  {
    meta.table := "";
    ok := true;
    if meta.crypt == VERITY {
      ok := GenVerityDmTbl(meta, buf, p, block);
    } else if meta.crypt == INTEGRITY {
      ok := GenIntegrityDmTbl(meta, buf, p, keyring, block);
    }
  }
}
