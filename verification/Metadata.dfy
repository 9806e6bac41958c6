/** A value that may be missing. */
module Wrappers {
  datatype Option<+T> = None | Some(value: T)
}

/**
 The meaning of the rootfs metadata (src/meta.c): what its settings block says
 and which device-mapper table its verity or integrity block stands for. These
 are functions of the text alone; `MetaParser` holds the in-place code.
 */
module Metadata {
  import opened Wrappers
  import opened CStrings
  import opened Numbers

  const TABLE_SIZE: nat := 1024
  const FSTYPE_SIZE: nat := 32
  const KEY_MAX: nat := 512

  type CryptOpt = bv8
  const NONE: CryptOpt := 0
  const VERITY: CryptOpt := 1
  const INTEGRITY: CryptOpt := 2
  const CRYPT: CryptOpt := 4

  /** The kernel user keyring: key descriptions to payloads. */
  type Keyring = map<string, seq<Byte>>

  /** No payload is longer than the buffer that `cominitKeyringGetKey` is given. */
  predicate Bounded(keyring: Keyring) {
    forall d :: d in keyring ==> |keyring[d]| <= KEY_MAX
  }

  datatype Settings = Settings(fsType: string, ro: bool, crypt: CryptOpt)

  /** A device-mapper table and the size in bytes of the volume it describes. */
  datatype Table = Table(text: string, size: nat)

  datatype Meta = Meta(settings: Settings, table: Option<Table>)

  // ----- Settings block -----

  function CryptOf(word: string): (c: Option<CryptOpt>) {
    if word == "plain" then Some(NONE)
    else if word == "verity" then Some(VERITY)
    else if word == "integrity" then Some(INTEGRITY)
    else if word == "crypt" then Some(CRYPT)
    else if word == "crypt-integrity" then Some(CRYPT | INTEGRITY)
    else if word == "crypt-verity" then Some(CRYPT | VERITY)
    else None
  }

  function Truncate(s: string, room: nat): (t: string)
    requires room > 0
  {
    if |s| < room then s else s[..room - 1]
  }

  /** `<meta_ver> <fstype> <mode> <crypt>`; the version is looked at elsewhere. */
  function SettingsOf(block: string): (r: Option<Settings>) {
    var t := Tokens(block);
    if |t| < 4 || (t[2] != "ro" && t[2] != "rw") then None
    else match CryptOf(t[3])
         case None => None
         case Some(c) => Some(Settings(Truncate(t[1], FSTYPE_SIZE), t[2] == "ro", c))
  }

  // ----- dm-verity -----

  function VerityText(dev: string, version: string, tail: string): (s: string) {
    version + " " + dev + " " + dev + " " + tail
  }

  /** Product of two numeric fields, as `uint64_t` arithmetic gives it. */
  function Product(a: string, b: string): (n: nat) {
    StrToUL(a, 10).value * StrToUL(b, 10).value % TWO64
  }

  function VerityTable(dev: string, block: string): (r: Option<Table>) {
    match NextToken(block, BLANK)
    case NoToken => None
    case Split(version, tail) =>
      var text := VerityText(dev, version, tail);
      var t := Tokens(tail);
      if tail == "" || |text| >= TABLE_SIZE || |t| < 5 then None
      else Some(Table(text, Product(t[0], t[2])))
  }

  // ----- dm-integrity -----

  predicate TakesKey(opt: string) {
    "internal_hash:" <= opt || "journal_crypt:" <= opt || "journal_mac:" <= opt
  }

  /** `strstr(s, "::")`: index of the first double colon, the length if there is none. */
  function DoubleColon(s: string): (k: nat)
    ensures k <= |s|
  {
    if |s| < 2 then |s|
    else if s[0] == ':' && s[1] == ':' then 0
    else 1 + DoubleColon(s[1..])
  }

  /** An option that names a key to fetch: `x::description`. */
  predicate NamesKey(opt: string) {
    TakesKey(opt) && DoubleColon(opt) + 2 < |opt|
  }

  /** An option as it goes into the table: with the key in hexadecimal if it names one. */
  function Resolve(opt: string, keyring: Keyring): (r: Option<string>) {
    if !NamesKey(opt) then Some(opt)
    else
      var k := DoubleColon(opt);
      var desc := opt[k + 2..];
      if desc in keyring && keyring[desc] != [] then Some(opt[..k + 1] + Hex(keyring[desc]))
      else None
  }

  predicate AllResolve(opts: seq<string>, keyring: Keyring) {
    forall i :: 0 <= i < |opts| ==> Resolve(opts[i], keyring).Some?
  }

  function Resolved(opts: seq<string>, keyring: Keyring): (r: seq<string>)
    requires AllResolve(opts, keyring)
    ensures |r| == |opts|
    ensures forall i :: 0 <= i < |opts| ==> r[i] == Resolve(opts[i], keyring).value
  {
    seq(|opts|, i requires 0 <= i < |opts| => Resolve(opts[i], keyring).value)
  }

  function IntegrityText(dev: string, count: nat, blockSize: string, opts: string): (s: string) {
    dev + " 0 - J " + Decimal(count) + " block_size:" + blockSize + " " + opts
  }

  /** The option count of the table: one more than the metadata declares, 64 bits wide. */
  function OptionCount(declared: string): (n: nat) {
    (StrToUL(declared, 10).value + 1) % TWO64
  }

  /** The table made of the option part `rest` of the block and the fields before it. */
  function IntegrityTableOf(dev: string, blocks: string, size: string, declared: string,
                            rest: string, keyring: Keyring): (r: Option<Table>)
  {
    var opts := Tokens(rest);
    if rest == "" || !AllResolve(opts, keyring) then None
    else
      var text := IntegrityText(dev, OptionCount(declared), size, Spaced(Resolved(opts, keyring)));
      if |text| >= TABLE_SIZE then None else Some(Table(text, Product(blocks, size)))
  }

  /** The table once the block count and the block size are off the block. */
  function IntegrityTableAt(dev: string, blocks: string, size: string, s: string,
                            keyring: Keyring): (r: Option<Table>)
  {
    match NextToken(s, BLANK)
    case NoToken => None
    case Split(declared, rest) => IntegrityTableOf(dev, blocks, size, declared, rest, keyring)
  }

  function IntegrityTable(dev: string, block: string, keyring: Keyring): (r: Option<Table>) {
    match NextToken(block, BLANK)
    case NoToken => None
    case Split(blocks, s) =>
      match NextToken(s, BLANK)
      case NoToken => None
      case Split(size, rest) => IntegrityTableAt(dev, blocks, size, rest, keyring)
  }

  // ----- The whole string -----

  /** The table for a crypt option; `None` inside for the options without one. */
  function TableOf(crypt: CryptOpt, dev: string, block: string, keyring: Keyring): (r: Option<Option<Table>>) {
    if crypt == VERITY then
      var t := VerityTable(dev, block);
      if t.None? then None else Some(t)
    else if crypt == INTEGRITY then
      var t := IntegrityTable(dev, block, keyring);
      if t.None? then None else Some(t)
    else Some(None)
  }

  /** Splitting at the first 0xFF; `None` without one. */
  function AtSeparator(s: string): (r: Option<(string, string)>)
  {
    var n := CSpan(s, {SEPARATOR});
    if n == |s| then None else Some((s[..n], s[n + 1..]))
  }

  /** The metadata string: version prefix, settings block, table block, crypt block. */
  function Parse(s: string, dev: string, keyring: Keyring): (r: Option<Meta>) {
    if !("1" <= s) then None
    else match AtSeparator(s)
         case None => None
         case Some((settings, blocks)) =>
           match AtSeparator(blocks)
           case None => None
           case Some((verint, _)) =>
             match SettingsOf(settings)
             case None => None
             case Some(set_) =>
               match TableOf(set_.crypt, dev, verint, keyring)
               case None => None
               case Some(table) => Some(Meta(set_, table))
  }

  // ----- What the string means -----

  /**
   The settings block, word by word: at least four fields, mode `ro` or `rw`, one of six
   words for the features, and a file system type cut to 31 characters.
   */
  lemma SettingsMeaning(block: string)
    ensures var t := Tokens(block);
            SettingsOf(block).Some? <==>
              && |t| >= 4 && (t[2] == "ro" || t[2] == "rw")
              && t[3] in ["plain", "verity", "integrity", "crypt", "crypt-integrity", "crypt-verity"]
    ensures SettingsOf(block).Some? ==>
              var t := Tokens(block);
              var s := SettingsOf(block).value;
              && s.fsType == (if |t[1]| <= 31 then t[1] else t[1][..31])
              && (s.ro <==> t[2] == "ro")
              && (s.crypt == 0 <==> t[3] == "plain")
              && (s.crypt == 1 <==> t[3] == "verity")
              && (s.crypt == 2 <==> t[3] == "integrity")
              && (s.crypt & 4 != 0 <==> t[3] in ["crypt", "crypt-integrity", "crypt-verity"])
  {
    hide Tokens;
    if |Tokens(block)| >= 4 { CryptMeaning(Tokens(block)[3]); }
    hide CryptOf;
  }

  lemma CryptMeaning(word: string)
    ensures CryptOf(word).Some? <==>
            word in ["plain", "verity", "integrity", "crypt", "crypt-integrity", "crypt-verity"]
    ensures CryptOf(word).Some? ==>
              var c := CryptOf(word).value;
              && (c == 0 <==> word == "plain") && (c == 1 <==> word == "verity") && (c == 2 <==> word == "integrity")
              && (c & 4 != 0 <==> word in ["crypt", "crypt-integrity", "crypt-verity"])
  {
  }

  lemma AtSeparatorOf(a: string, b: string)
    requires SEPARATOR !in a
    ensures AtSeparator(a + [SEPARATOR] + b) == Some((a, b))
  {
    var s := a + [SEPARATOR] + b;
    CSpanUnique(s, {SEPARATOR}, |a|);
    assert s[..|a|] == a && s[|a| + 1..] == b;
  }

  /**
   A string of three blocks is accepted exactly when it starts with `1`, its settings are
   valid, and its second block yields the table that the settings ask for, if any.
   */
  lemma ParseOfBlocks(a: string, b: string, c: string, dev: string, keyring: Keyring)
    requires '\U{00FF}' !in a && '\U{00FF}' !in b
    ensures var r := Parse(a + ['\U{00FF}'] + (b + ['\U{00FF}'] + c), dev, keyring);
            var set_ := SettingsOf(a);
            && (r.Some? <==> && a != "" && a[0] == '1' && set_.Some?
                             && (set_.value.crypt == 1 ==> VerityTable(dev, b).Some?)
                             && (set_.value.crypt == 2 ==> IntegrityTable(dev, b, keyring).Some?))
            && (r.Some? ==> && r.value.settings == set_.value
                            && r.value.table == (if set_.value.crypt == 1 then VerityTable(dev, b)
                                                 else if set_.value.crypt == 2 then IntegrityTable(dev, b, keyring)
                                                 else None))
  {
    AtSeparatorOf(a, b + [SEPARATOR] + c);
    AtSeparatorOf(b, c);
    hide AtSeparator, SettingsOf, VerityTable, IntegrityTable;
    var s := a + [SEPARATOR] + (b + [SEPARATOR] + c);
    assert s[0] == if a == "" then SEPARATOR else a[0];
    assert "1" <= s <==> s[0] == '1';
  }

  /** Every string that is accepted is one of three blocks. */
  lemma ParsedHasBlocks(s: string, dev: string, keyring: Keyring) returns (a: string, b: string, c: string)
    requires Parse(s, dev, keyring).Some?
    ensures s == a + ['\U{00FF}'] + (b + ['\U{00FF}'] + c)
    ensures '\U{00FF}' !in a && '\U{00FF}' !in b
  {
    hide SettingsOf, TableOf, CSpan;
    var (settings, blocks) := AtSeparator(s).value;
    var (verint, cryptBlock) := AtSeparator(blocks).value;
    CSpanProps(s, {SEPARATOR});
    CSpanProps(blocks, {SEPARATOR});
    a, b, c := settings, verint, cryptBlock;
  }

  // ----- What the tables mean -----

  /**
   A verity block yields a table exactly when it has six tokens or more and the
   formatted text is shorter than the table buffer. The table then reads
   version, device, device and the remaining fields of the block, whatever the
   spacing was, and the volume size is data block size times number of blocks.
   */
  lemma VerityMeaning(dev: string, block: string)
    ensures VerityTable(dev, block).Some? <==>
              && |Tokens(block)| >= 6
              && |block| - Span(block, {' '}) + 2 * |dev| + 2 < 1024
    ensures VerityTable(dev, block).Some? ==>
              var b := Tokens(block);
              var table := VerityTable(dev, block).value;
              && Tokens(table.text) == [b[0]] + Tokens(dev) + Tokens(dev) + b[1..]
              && table.size == Product(b[1], b[3])
  {
    match NextToken(block, BLANK)
    case NoToken =>
    case Split(version, tail) =>
      NextTokenShape(block, BLANK, version, tail);
      VerityTextTokens(dev, version, tail, block);
  }

  lemma VerityTextTokens(dev: string, version: string, tail: string, block: string)
    requires NextToken(block, BLANK) == Split(version, tail)
    ensures Tokens(block) == [version] + Tokens(tail)
    ensures Tokens(VerityText(dev, version, tail)) == [version] + Tokens(dev) + Tokens(dev) + Tokens(tail)
  {
    NextTokenChars(block, BLANK);
    var a := version + " " + dev;
    TokensCons(version, dev);
    TokensSplit(a, dev);
    TokensSplit(a + " " + dev, tail);
  }

  // ----- Keys in options -----

  /** `x::desc` turns into `x:` and hexadecimal digits that decode to the payload of `desc`. */
  lemma ResolveKey(opt: string, x: string, desc: string, keyring: Keyring)
    requires opt == x + "::" + desc && DoubleColon(x) == |x| && x != "" && x[|x| - 1] != ':'
    requires "internal_hash:" <= opt || "journal_crypt:" <= opt || "journal_mac:" <= opt
    requires desc != ""
    ensures Resolve(opt, keyring).Some? <==> desc in keyring && keyring[desc] != []
    ensures Resolve(opt, keyring).Some? ==>
              exists h :: Resolve(opt, keyring) == Some(x + ":" + h) && Unhex(h) == keyring[desc]
  {
    DoubleColonAt(x, desc);
    assert opt[|x| + 2..] == desc;
    assert opt[..|x| + 1] == x + ":";
    ResolveAt(opt, |x|, x + ":", desc, keyring);
    if desc in keyring && keyring[desc] != [] {
      var h := Hex(keyring[desc]);
      HexRoundTrip(keyring[desc]);
      assert Resolve(opt, keyring) == Some(x + ":" + h) && Unhex(h) == keyring[desc];
    }
  }

  /** Other options, and those that name no key, stay as they are. */
  lemma ResolveOther(opt: string, keyring: Keyring)
    requires !("internal_hash:" <= opt || "journal_crypt:" <= opt || "journal_mac:" <= opt)
             || forall k :: 0 <= k < |opt| - 2 ==> opt[k] != ':' || opt[k + 1] != ':'
    ensures Resolve(opt, keyring) == Some(opt)
  {
    DoubleColonFinds(opt);
    hide DoubleColon;
  }

  lemma {:induction false} DoubleColonFinds(s: string)
    ensures var k := DoubleColon(s); k + 1 < |s| ==> s[k] == ':' && s[k + 1] == ':'
  {
    if |s| < 2 || (s[0] == ':' && s[1] == ':') {
    } else {
      DoubleColonFinds(s[1..]);
    }
  }

  lemma ResolveAt(opt: string, k: nat, prefix: string, desc: string, keyring: Keyring)
    requires TakesKey(opt) && k == DoubleColon(opt) && k + 2 < |opt|
    requires prefix == opt[..k + 1] && desc == opt[k + 2..]
    ensures Resolve(opt, keyring) ==
            if desc in keyring && keyring[desc] != [] then Some(prefix + Hex(keyring[desc])) else None
  {
    hide DoubleColon, TakesKey, Hex;
  }

  lemma {:induction false} DoubleColonAt(x: string, desc: string)
    requires DoubleColon(x) == |x| && x != "" && x[|x| - 1] != ':'
    ensures DoubleColon(x + "::" + desc) == |x|
  {
    var s := x + "::" + desc;
    assert s[1..] == x[1..] + "::" + desc;
    if |x| > 1 {
      DoubleColonAt(x[1..], desc);
    } else {
      assert s[1..][0] == ':' && s[1..][1] == ':';
    }
  }

  lemma ResolveIsWord(opt: string, keyring: Keyring)
    requires IsWord(opt) && Resolve(opt, keyring).Some?
    ensures IsWord(Resolve(opt, keyring).value)
  {
    if NamesKey(opt) {
      HexHasNoBlank(keyring[opt[DoubleColon(opt) + 2..]]);
    }
  }

  lemma ResolvedAreWords(opts: seq<string>, keyring: Keyring)
    requires AllResolve(opts, keyring) && forall o :: o in opts ==> IsWord(o)
    ensures forall o :: o in Resolved(opts, keyring) ==> IsWord(o)
  {
    forall i | 0 <= i < |opts| ensures IsWord(Resolved(opts, keyring)[i]) {
      ResolveIsWord(opts[i], keyring);
    }
  }

  // ----- The integrity table -----

  /** The fields in front of the options. */
  function IntegrityHead(count: nat, blockSize: string): (ws: seq<string>) {
    ["0", "-", "J", Decimal(count), "block_size:" + blockSize]
  }

  lemma IntegrityTextIsSpaced(dev: string, count: nat, blockSize: string, ws: seq<string>)
    ensures IntegrityText(dev, count, blockSize, Spaced(ws)) ==
            dev + " " + Spaced(IntegrityHead(count, blockSize) + ws)
  {
    hide Decimal, Spaced;
    var d, b, o := Decimal(count), "block_size:" + blockSize, Spaced(ws);
    SpacedFive("0", "-", "J", d, b, ws);
    calc {
      IntegrityText(dev, count, blockSize, o);
      dev + " 0 - J " + d + " block_size:" + blockSize + " " + o;
      dev + (" 0 - J " + (d + (" " + b + " " + o)));
      { assert " 0 - J " == " " + ("0" + " " + ("-" + " " + ("J" + " "))); }
      dev + " " + ("0" + " " + ("-" + " " + ("J" + " " + (d + " " + (b + " " + o)))));
    }
  }

  lemma SpacedFive(a: string, b: string, c: string, d: string, e: string, ws: seq<string>)
    ensures Spaced([a, b, c, d, e] + ws) ==
            a + " " + (b + " " + (c + " " + (d + " " + (e + " " + Spaced(ws)))))
  {
    SpacedCons(a, [b, c, d, e] + ws);
    SpacedCons(b, [c, d, e] + ws);
    SpacedCons(c, [d, e] + ws);
    SpacedCons(d, [e] + ws);
    SpacedCons(e, ws);
    assert [a, b, c, d, e] + ws == [a] + ([b, c, d, e] + ws);
    assert [b, c, d, e] + ws == [b] + ([c, d, e] + ws);
    assert [c, d, e] + ws == [c] + ([d, e] + ws);
    assert [d, e] + ws == [d] + ([e] + ws);
  }

  lemma IntegrityTextTokens(dev: string, count: nat, blockSize: string, ws: seq<string>)
    requires IsWord(blockSize) && forall w :: w in ws ==> IsWord(w)
    ensures Tokens(IntegrityText(dev, count, blockSize, Spaced(ws))) ==
            Tokens(dev) + IntegrityHead(count, blockSize) + ws
  {
    var all := IntegrityHead(count, blockSize) + ws;
    DecimalIsWord(count);
    assert forall w :: w in all ==> IsWord(w);
    IntegrityTextIsSpaced(dev, count, blockSize, ws);
    TokensSplit(dev, Spaced(all));
    TokensSpaced(all);
  }

  /** The last two characters are blanks. */
  predicate TwoBlanksAtEnd(s: string) {
    |s| >= 2 && s[|s| - 1] == ' ' && s[|s| - 2] == ' '
  }

  /** There is something to tokenise behind the third field: a fourth one, or a second blank. */
  predicate HasOptionPart(block: string) {
    |Tokens(block)| > 3 || TwoBlanksAtEnd(block)
  }

  lemma BlanksAtEndOfRest(s: string, t: string, rest: string)
    requires NextToken(s, BLANK) == Split(t, rest)
    ensures Tokens(rest) == [] ==> (TwoBlanksAtEnd(s) <==> rest != "")
    ensures Tokens(rest) != [] ==> (TwoBlanksAtEnd(s) <==> TwoBlanksAtEnd(rest))
  {
    hide NextToken, Span, CSpan;
    NextTokenShape(s, BLANK, t, rest);
    NextTokenChars(s, BLANK);
    SpanProps(rest, BLANK);
    var e := Span(s, BLANK) + |t|;
    assert s[e - 1] == t[|t| - 1] && t[|t| - 1] in t;
    if rest != "" {
      assert s[|s| - 1] == rest[|rest| - 1];
      assert |rest| >= 2 ==> s[|s| - 2] == rest[|rest| - 2];
    }
  }

  /**
   An integrity block yields a table exactly when it has three fields and an
   option part, every key it names is in the keyring, and the text fits. The
   table then reads device, `0 - J`, the count, the block size and the options in
   order, each resolved, whatever the spacing was.
   */
  lemma IntegrityMeaning(dev: string, block: string, keyring: Keyring)
    ensures IntegrityTable(dev, block, keyring).Some? <==>
              var t := Tokens(block);
              && |t| >= 3 && (|t| > 3 || (|block| >= 2 && block[|block| - 1] == ' ' && block[|block| - 2] == ' '))
              && AllResolve(t[3..], keyring)
              && var count := Decimal((StrToUL(t[2], 10).value + 1) % TWO64);
                 |dev| + 7 + |count| + 12 + |t[1]| + 1 + |Spaced(Resolved(t[3..], keyring))| < 1024
    ensures IntegrityTable(dev, block, keyring).Some? ==>
              var t := Tokens(block);
              var table := IntegrityTable(dev, block, keyring).value;
              && Tokens(table.text) ==
                   Tokens(dev) + ["0", "-", "J", Decimal((StrToUL(t[2], 10).value + 1) % TWO64), "block_size:" + t[1]]
                   + Resolved(t[3..], keyring)
              && table.size == Product(t[0], t[1])
  {
    hide IntegrityTable, Tokens, StrToUL, Decimal, Spaced, Product, AllResolve;
    IntegrityTableTokens(dev, block, keyring);
  }

  lemma IntegrityTableTokens(dev: string, block: string, keyring: Keyring)
    ensures IntegrityTable(dev, block, keyring).Some? <==>
              var t := Tokens(block);
              && |t| >= 3 && HasOptionPart(block) && AllResolve(t[3..], keyring)
              && |IntegrityText(dev, OptionCount(t[2]), t[1], Spaced(Resolved(t[3..], keyring)))| < TABLE_SIZE
    ensures IntegrityTable(dev, block, keyring).Some? ==>
              var t := Tokens(block);
              var table := IntegrityTable(dev, block, keyring).value;
              && Tokens(table.text) ==
                   Tokens(dev) + IntegrityHead(OptionCount(t[2]), t[1]) + Resolved(t[3..], keyring)
              && table.size == Product(t[0], t[1])
  {
    match NextToken(block, BLANK)
    case NoToken =>
    case Split(blocks, r1) =>
      match NextToken(r1, BLANK)
      case NoToken =>
        assert Tokens(r1) == [];
      case Split(size, r2) =>
        match NextToken(r2, BLANK)
        case NoToken =>
          assert Tokens(r1) == [size] + Tokens(r2);
        case Split(declared, r3) =>
          assert Tokens(r2) == [declared] + Tokens(r3);
          assert Tokens(r1) == [size] + Tokens(r2);
          IntegrityMeaningOf(dev, block, blocks, r1, size, r2, declared, r3, keyring);
  }

  /** The case of `IntegrityTableTokens` with three fields, taken apart. */
  lemma IntegrityMeaningOf(dev: string, block: string, blocks: string, r1: string, size: string,
                           r2: string, declared: string, r3: string, keyring: Keyring)
    requires NextToken(block, BLANK) == Split(blocks, r1)
    requires NextToken(r1, BLANK) == Split(size, r2)
    requires NextToken(r2, BLANK) == Split(declared, r3)
    ensures Tokens(block) == [blocks, size, declared] + Tokens(r3)
    ensures Tokens(block)[3..] == Tokens(r3)
    ensures HasOptionPart(block) <==> r3 != ""
    ensures var r := IntegrityTableOf(dev, blocks, size, declared, r3, keyring);
            r.Some? ==> (Tokens(r.value.text) ==
              Tokens(dev) + IntegrityHead(OptionCount(declared), size) + Resolved(Tokens(r3), keyring))
  {
    OptionPart(block, blocks, r1, size, r2, declared, r3);
    NextTokenChars(r1, BLANK);
    IntegrityTableMeaning(dev, blocks, size, declared, r3, keyring);
  }

  lemma OptionPart(block: string, blocks: string, r1: string, size: string,
                   r2: string, declared: string, r3: string)
    requires NextToken(block, BLANK) == Split(blocks, r1)
    requires NextToken(r1, BLANK) == Split(size, r2)
    requires NextToken(r2, BLANK) == Split(declared, r3)
    ensures Tokens(block) == [blocks, size, declared] + Tokens(r3)
    ensures Tokens(block)[3..] == Tokens(r3)
    ensures HasOptionPart(block) <==> r3 != ""
  {
    TokensOfSplit(block);
    TokensOfSplit(r1);
    TokensOfSplit(r2);
    BlanksAtEndOfRest(block, blocks, r1);
    BlanksAtEndOfRest(r1, size, r2);
    BlanksAtEndOfRest(r2, declared, r3);
    hide *;
    ThreeInFront(Tokens(block), Tokens(r1), Tokens(r2), Tokens(r3), blocks, size, declared);
  }

  lemma TokensOfSplit(s: string)
    requires NextToken(s, BLANK).Split?
    ensures Tokens(s) == [NextToken(s, BLANK).token] + Tokens(NextToken(s, BLANK).rest)
  {
  }

  lemma ThreeInFront(a: seq<string>, b: seq<string>, c: seq<string>, d: seq<string>, x: string, y: string, z: string)
    requires a == [x] + b && b == [y] + c && c == [z] + d
    ensures a == [x, y, z] + d && a[3..] == d
  {
  }

  lemma IntegrityTableMeaning(dev: string, blocks: string, size: string, declared: string,
                              rest: string, keyring: Keyring)
    requires IsWord(size)
    ensures var r := IntegrityTableOf(dev, blocks, size, declared, rest, keyring);
            r.Some? ==> (Tokens(r.value.text) ==
              Tokens(dev) + IntegrityHead(OptionCount(declared), size) + Resolved(Tokens(rest), keyring))
  {
    var opts := Tokens(rest);
    TokensAreWords(rest);
    if AllResolve(opts, keyring) {
      ResolvedAreWords(opts, keyring);
      IntegrityTextTokens(dev, OptionCount(declared), size, Resolved(opts, keyring));
    }
  }

  lemma {:induction false} SpacedLength(ws: seq<string>)
    ensures |Spaced(ws)| >= |ws|
  {
    if ws == [] {
    } else {
      SpacedLength(ws[1..]);
    }
  }

  /**
   The count that the table announces is the number of optional arguments behind
   it exactly when the metadata declares the number of options it lists.
   */
  lemma IntegrityCount(dev: string, block: string, keyring: Keyring)
    ensures IntegrityTable(dev, block, keyring).Some? ==>
            var t := Tokens(block);
            var out := Tokens(IntegrityTable(dev, block, keyring).value.text);
            var d := |Tokens(dev)|;
            && |t| >= 3 && |out| == d + 5 + |t[3..]|
            && (StrToUL(out[d + 3], 10).value == |out[d + 4..]| <==> StrToUL(t[2], 10).value == |t[3..]|)
  {
    hide IntegrityTable, Tokens, StrToUL, Decimal, Resolve, HasOptionPart, Spaced;
    IntegrityTableTokens(dev, block, keyring);
    if IntegrityTable(dev, block, keyring).Some? {
      var t := Tokens(block);
      CountIsRight(Tokens(dev), t[2], t[1], Resolved(t[3..], keyring));
      SpacedLength(Resolved(t[3..], keyring));
    }
  }

  lemma CountIsRight(dev: seq<string>, declared: string, size: string, opts: seq<string>)
    ensures var out := dev + IntegrityHead(OptionCount(declared), size) + opts;
            && |out| == |dev| + 5 + |opts|
            && (|opts| < TABLE_SIZE ==>
                  (StrToUL(out[|dev| + 3], 10).value == |out[|dev| + 4..]| <==>
                   StrToUL(declared, 10).value == |opts|))
  {
    hide StrToUL, Decimal;
    var head := IntegrityHead(OptionCount(declared), size);
    StrToULOfDecimal(OptionCount(declared));
    assert (dev + head + opts)[|dev| + 3] == head[3];
  }

  // ----- What the device mapper is handed -----

  lemma SpacedHasNoNul(ws: seq<string>)
    requires forall w :: w in ws ==> NUL !in w
    ensures NUL !in Spaced(ws)
  {
    if ws == [] {
    } else {
      SpacedHasNoNul(ws[1..]);
    }
  }

  lemma ResolveHasNoNul(opt: string, keyring: Keyring)
    requires NUL !in opt && Resolve(opt, keyring).Some?
    ensures NUL !in Resolve(opt, keyring).value
  {
    if NamesKey(opt) { HexHasNoBlank(keyring[opt[DoubleColon(opt) + 2..]]); }
  }

  lemma OptionsHaveNoNul(rest: string, keyring: Keyring)
    requires NUL !in rest && AllResolve(Tokens(rest), keyring)
    ensures NUL !in Spaced(Resolved(Tokens(rest), keyring))
  {
    TokensAreWords(rest);
    var ws := Resolved(Tokens(rest), keyring);
    forall i | 0 <= i < |ws| ensures NUL !in ws[i] {
      ResolveHasNoNul(Tokens(rest)[i], keyring);
    }
    SpacedHasNoNul(ws);
  }

  lemma IntegrityTextIsText(dev: string, count: nat, size: string, opts: string)
    requires NUL !in dev && NUL !in size && NUL !in opts
    ensures NUL !in IntegrityText(dev, count, size, opts)
  {
    DecimalIsWord(count);
    var a := dev + " 0 - J " + Decimal(count);
    assert NUL !in a;
    assert NUL !in a + " block_size:";
  }

  lemma IntegrityTableOfIsText(dev: string, blocks: string, size: string, declared: string, rest: string,
                               keyring: Keyring)
    requires NUL !in dev && NUL !in size && NUL !in rest
    ensures var r := IntegrityTableOf(dev, blocks, size, declared, rest, keyring);
            r.Some? ==> NUL !in r.value.text
  {
    if AllResolve(Tokens(rest), keyring) {
      OptionsHaveNoNul(rest, keyring);
      IntegrityTextIsText(dev, OptionCount(declared), size, Spaced(Resolved(Tokens(rest), keyring)));
    }
  }

  lemma IntegrityTableIsText(dev: string, block: string, keyring: Keyring)
    requires NUL !in block && NUL !in dev
    ensures IntegrityTable(dev, block, keyring).Some? ==> NUL !in IntegrityTable(dev, block, keyring).value.text
  {
    match NextToken(block, BLANK)
    case NoToken =>
    case Split(blocks, r1) =>
      NextTokenChars(block, BLANK);
      match NextToken(r1, BLANK)
      case NoToken =>
      case Split(size, r2) =>
        NextTokenChars(r1, BLANK);
        match NextToken(r2, BLANK)
        case NoToken =>
        case Split(declared, rest) =>
          NextTokenChars(r2, BLANK);
          IntegrityTableOfIsText(dev, blocks, size, declared, rest, keyring);
  }

  /** A table made from NUL-free text is a C string that fits its buffer. */
  lemma TableIsText(crypt: CryptOpt, dev: string, block: string, keyring: Keyring)
    requires NUL !in block && NUL !in dev
    ensures var r := TableOf(crypt, dev, block, keyring);
            r.Some? && r.value.Some? ==> |r.value.value.text| < TABLE_SIZE && NUL !in r.value.value.text
  {
    NextTokenChars(block, BLANK);
    IntegrityTableIsText(dev, block, keyring);
  }

  /** So is the table of every metadata string that is accepted. */
  lemma ParsedTableIsText(s: string, dev: string, keyring: Keyring)
    requires NUL !in s && NUL !in dev
    ensures var r := Parse(s, dev, keyring);
            r.Some? && r.value.table.Some? ==>
              |r.value.table.value.text| < 1024 && NUL !in r.value.table.value.text
  {
    if Parse(s, dev, keyring).Some? {
      var (settings, blocks) := AtSeparator(s).value;
      var (verint, _) := AtSeparator(blocks).value;
      assert NUL !in blocks && NUL !in verint;
      TableIsText(SettingsOf(settings).value.crypt, dev, verint, keyring);
    }
  }

  /**
   Volume size of decimal fields: each saturates at 2^64 - 1, and the product is taken
   modulo 2^64. So it is the true product whenever that fits 64 bits.
   */
  lemma VolumeSize(a: string, b: string)
    requires IsDecimal(a) && IsDecimal(b)
    ensures var x, y := Value(a, 10), Value(b, 10);
            && (x * y < TWO64 ==> Product(a, b) == x * y)
            && Product(a, b) == (if x < TWO64 then x else TWO64 - 1) * (if y < TWO64 then y else TWO64 - 1) % TWO64
  {
    var x, y := Value(a, 10), Value(b, 10);
    StrToULDecimal(a);
    StrToULDecimal(b);
    SaturatedProduct(x, y, TWO64);
  }

  lemma SaturatedProduct(x: nat, y: nat, m: nat)
    requires m > 0
    ensures var sx, sy := if x < m then x else m - 1, if y < m then y else m - 1;
            x * y < m ==> sx * sy == x * y && x * y % m == x * y
  {
    if x > 0 && y > 0 {
      ProductAtLeast(x, y);
      ProductAtLeast(y, x);
    }
  }

  lemma ProductAtLeast(x: nat, y: nat)
    requires y > 0
    ensures x * y >= x
  {
  }
}
