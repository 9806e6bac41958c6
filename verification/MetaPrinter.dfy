/**
 Writing a metadata region as README.md of the repository lays it out, and the
 proof that loading it gives back what was written.
 */
module MetaPrinter {
  import opened Wrappers
  import opened CStrings
  import opened Numbers
  import opened Metadata
  import opened MetaRegion

  datatype Record = Record(
    version: string, fsType: string, ro: bool, crypt: CryptOpt, verint: string, cryptBlock: string)

  predicate Clean(s: string) {
    NUL !in s && SEPARATOR !in s
  }

  predicate KnownCrypt(c: CryptOpt) {
    c == NONE || c == VERITY || c == INTEGRITY || c == CRYPT || c == CRYPT | INTEGRITY || c == CRYPT | VERITY
  }

  predicate WellFormed(r: Record) {
    && IsWord(r.version) && "1" <= r.version && Clean(r.version)
    && IsWord(r.fsType) && |r.fsType| < FSTYPE_SIZE && Clean(r.fsType)
    && KnownCrypt(r.crypt)
    && Clean(r.verint) && Clean(r.cryptBlock)
  }

  function CryptWord(c: CryptOpt): (w: string)
    requires KnownCrypt(c)
    ensures CryptOf(w) == Some(c)
    ensures IsWord(w) && Clean(w)
  {
    if c == NONE then "plain"
    else if c == VERITY then "verity"
    else if c == INTEGRITY then "integrity"
    else if c == CRYPT then "crypt"
    else if c == CRYPT | INTEGRITY then "crypt-integrity"
    else "crypt-verity"
  }

  function ModeWord(ro: bool): (w: string)
    ensures IsWord(w) && Clean(w) && (w == "ro" || w == "rw") && (w == "ro" <==> ro)
  {
    if ro then "ro" else "rw"
  }

  function PrintSettings(r: Record): (s: string)
    requires WellFormed(r)
  {
    r.version + " " + (r.fsType + " " + (ModeWord(r.ro) + " " + CryptWord(r.crypt)))
  }

  function Print(r: Record): (s: string)
    requires WellFormed(r)
  {
    PrintSettings(r) + [SEPARATOR] + (r.verint + [SEPARATOR] + r.cryptBlock)
  }

  /** The region: data, NUL, signature, zero padding. */
  function Region(data: string, signature: string): (region: seq<char>)
    requires |data| + 1 + |signature| <= REGION_SIZE
    ensures |region| == REGION_SIZE
  {
    data + [NUL] + signature + seq(REGION_SIZE - |data| - 1 - |signature|, _ => NUL)
  }

  lemma FourWords(a: string, b: string, c: string, d: string)
    requires IsWord(a) && IsWord(b) && IsWord(c) && IsWord(d)
    ensures Tokens(a + " " + (b + " " + (c + " " + d))) == [a, b, c, d]
  {
    TokensOfWord(d);
    TokensCons(c, d);
    TokensCons(b, c + " " + d);
    TokensCons(a, b + " " + (c + " " + d));
  }

  lemma FourClean(a: string, b: string, c: string, d: string)
    requires Clean(a) && Clean(b) && Clean(c) && Clean(d)
    ensures Clean(a + " " + (b + " " + (c + " " + d)))
  {
  }

  lemma SettingsRoundTrip(r: Record)
    requires WellFormed(r)
    ensures SettingsOf(PrintSettings(r)) == Some(Settings(r.fsType, r.ro, r.crypt))
    ensures Clean(PrintSettings(r)) && "1" <= PrintSettings(r)
  {
    FourWords(r.version, r.fsType, ModeWord(r.ro), CryptWord(r.crypt));
    FourClean(r.version, r.fsType, ModeWord(r.ro), CryptWord(r.crypt));
  }

  /** Parsing what was printed: the same settings, and the table that the block stands for. */
  lemma ParseRoundTrip(r: Record, dev: string, keyring: Keyring)
    requires WellFormed(r)
    ensures NUL !in Print(r)
    ensures var p := Parse(Print(r), dev, keyring);
            && (p.Some? ==> p.value.settings == Settings(r.fsType, r.ro, r.crypt))
            && (r.crypt != 1 && r.crypt != 2 ==> p.Some? && p.value.table.None?)
            && (r.crypt == 1 ==> (p.Some? <==> VerityTable(dev, r.verint).Some?)
                                 && (p.Some? ==> p.value.table == VerityTable(dev, r.verint)))
            && (r.crypt == 2 ==> (p.Some? <==> IntegrityTable(dev, r.verint, keyring).Some?)
                                 && (p.Some? ==> p.value.table == IntegrityTable(dev, r.verint, keyring)))
  {
    SettingsRoundTrip(r);
    ParseOfBlocks(PrintSettings(r), r.verint, r.cryptBlock, dev, keyring);
    hide Parse, SettingsOf, VerityTable, IntegrityTable, PrintSettings;
    assert PrintSettings(r)[0] == '1';
  }

  /**
   A printed verity record parses exactly when its block has six fields and the table
   fits, and gives the table with the device put in twice.
   */
  lemma VerityRecord(r: Record, dev: string, keyring: Keyring)
    requires WellFormed(r) && r.crypt == 1
    ensures Parse(Print(r), dev, keyring).Some? <==>
              |Tokens(r.verint)| >= 6 && |r.verint| - Span(r.verint, {' '}) + 2 * |dev| + 2 < 1024
    ensures Parse(Print(r), dev, keyring).Some? ==>
              var b, m := Tokens(r.verint), Parse(Print(r), dev, keyring).value;
              && m.settings == Settings(r.fsType, r.ro, 1) && m.table.Some?
              && Tokens(m.table.value.text) == [b[0]] + Tokens(dev) + Tokens(dev) + b[1..]
              && m.table.value.size == Product(b[1], b[3])
  {
    hide Parse, Print, VerityTable, Tokens, Span, Product, WellFormed;
    ParseRoundTrip(r, dev, keyring);
    VerityMeaning(dev, r.verint);
  }

  /**
   A printed integrity record parses exactly when its block has three fields and an option
   part, its keys are there and the table fits, and gives the table with the options resolved.
   */
  lemma IntegrityRecord(r: Record, dev: string, keyring: Keyring)
    requires WellFormed(r) && r.crypt == 2
    ensures Parse(Print(r), dev, keyring).Some? <==>
              var t := Tokens(r.verint);
              && |t| >= 3
              && (|t| > 3 || (var n := |r.verint|; n >= 2 && r.verint[n - 1] == ' ' && r.verint[n - 2] == ' '))
              && AllResolve(t[3..], keyring)
              && var count := Decimal((StrToUL(t[2], 10).value + 1) % TWO64);
                 |dev| + 7 + |count| + 12 + |t[1]| + 1 + |Spaced(Resolved(t[3..], keyring))| < 1024
    ensures Parse(Print(r), dev, keyring).Some? ==>
              var t, m := Tokens(r.verint), Parse(Print(r), dev, keyring).value;
              && m.settings == Settings(r.fsType, r.ro, 2) && m.table.Some?
              && Tokens(m.table.value.text) ==
                   Tokens(dev) + ["0", "-", "J", Decimal((StrToUL(t[2], 10).value + 1) % TWO64), "block_size:" + t[1]]
                   + Resolved(t[3..], keyring)
              && m.table.value.size == Product(t[0], t[1])
  {
    hide *;
    SameTable(r, dev, keyring, Parse(Print(r), dev, keyring), IntegrityTable(dev, r.verint, keyring));
    IntegrityMeaning(dev, r.verint, keyring);
  }

  lemma SameTable(r: Record, dev: string, keyring: Keyring, p: Option<Meta>, table: Option<Table>)
    requires WellFormed(r) && r.crypt == 2
    requires p == Parse(Print(r), dev, keyring) && table == IntegrityTable(dev, r.verint, keyring)
    ensures p.Some? <==> table.Some?
    ensures p.Some? ==> p.value.settings == Settings(r.fsType, r.ro, 2) && p.value.table == table
  {
    hide Parse, Print, IntegrityTable;
    ParseRoundTrip(r, dev, keyring);
  }

  /** Longest data block that the code accepts; one more byte would still fit the region. */
  const DATA_MAX: nat := 3582

  /** The frame of a region written by `Region` is what went into it, unless the region is full. */
  lemma FrameRoundTrip(data: string, signature: string)
    requires NUL !in data && |signature| == SIG_LENGTH && |data| + 1 + |signature| <= REGION_SIZE
    ensures Frame(Region(data, signature)) == if |data| <= DATA_MAX then Some(Framed(data, signature)) else None
  {
    var region := Region(data, signature);
    CSpanUnique(region, {NUL}, |data|);
    assert region[..|data|] == data;
    assert region[|data| + 1..|data| + 1 + SIG_LENGTH] == signature;
  }

  /**
   A written record that leaves a byte to spare loads as it parses, exactly if its
   signature is accepted.
   */
  lemma LoadRoundTrip(r: Record, signature: string, verify: (string, string) -> bool, dev: string, keyring: Keyring)
    requires WellFormed(r) && |signature| == SIG_LENGTH && |Print(r)| + 1 + |signature| <= REGION_SIZE
    ensures Load(Region(Print(r), signature), verify, dev, keyring) ==
            if |Print(r)| <= 3582 && verify(Print(r) + [NUL], signature) then Parse(Print(r), dev, keyring)
            else None
  {
    hide Parse, Frame, Region, Print, WellFormed;
    ParseRoundTrip(r, dev, keyring);
    FrameRoundTrip(Print(r), signature);
  }

  // ----- Which reads deliver a region -----

  /** A signature of `x`s. */
  function XSignature(): (s: string)
    ensures |s| == SIG_LENGTH && '1' !in s
  {
    seq(SIG_LENGTH, _ => 'x')
  }

  /** A plain ext4 record with empty tables. */
  const PLAIN := Record("1", "ext4", true, NONE, "", "")

  /** A byte that occurs only at the start of the data, and not in the signature, is unique in the region. */
  lemma FirstByteIsUnique(data: string, signature: string)
    requires |data| + 1 + |signature| <= REGION_SIZE
    requires data != "" && data[0] != NUL && data[0] !in data[1..] && data[0] !in signature
    ensures var region := Region(data, signature); region[0] == data[0] && region[0] !in region[1..]
  {
    var region := Region(data, signature);
    var pad := seq(REGION_SIZE - |data| - 1 - |signature|, _ => NUL);
    assert data[0] !in pad;
    assert region == data + ([NUL] + signature + pad);
    assert region[1..] == data[1..] + ([NUL] + signature + pad);
  }

  lemma PlainText()
    ensures WellFormed(PLAIN)
    ensures Print(PLAIN) == "1 ext4 ro plain" + [SEPARATOR] + [SEPARATOR]
  {
    assert IsWord("1") && IsWord("ext4") && Clean("1") && Clean("ext4") && Clean("");
    hide IsWord, Clean, CryptOf;
    assert ModeWord(true) == "ro" && CryptWord(NONE) == "plain";
    assert "" + [SEPARATOR] + "" == [SEPARATOR];
  }

  /** Its region: framed, complete, and with a first byte that does not occur again. */
  lemma PlainRegion()
    ensures WellFormed(PLAIN) && |Print(PLAIN)| <= DATA_MAX
    ensures var region := Region(Print(PLAIN), XSignature());
            region[0] !in region[1..] && Frame(region) == Some(Framed(Print(PLAIN), XSignature()))
  {
    PlainText();
    hide WellFormed, Print, Frame, Region;
    var data := Print(PLAIN);
    assert data[0] == '1' && data[0] !in data[1..] && NUL !in data;
    FrameRoundTrip(data, XSignature());
    FirstByteIsUnique(data, XSignature());
  }

  /** The buffer after a read loop for given results of `read`. */
  function Arrived(region: seq<char>, results: seq<int>): (buf: seq<char>)
    requires |region| == REGION_SIZE
  {
    ReadAll(region, seq(REGION_SIZE, _ => NUL), results, REGION_SIZE).1
  }

  /**
   For results that deliver enough: every region that is written as described arrives as it
   was written, exactly when a single read brings everything.
   */
  lemma EveryRegionArrives(results: seq<int>)
    requires Delivered(results, REGION_SIZE)
    ensures OneRead(results, REGION_SIZE) <==>
            forall r, signature :: WellFormed(r) && |signature| == SIG_LENGTH && |Print(r)| <= DATA_MAX ==>
              Arrived(Region(Print(r), signature), results) == Region(Print(r), signature)
  {
    var zero: seq<char> := seq(REGION_SIZE, _ => NUL);
    if OneRead(results, REGION_SIZE) {
      forall r, signature | WellFormed(r) && |signature| == SIG_LENGTH && |Print(r)| <= DATA_MAX
        ensures Arrived(Region(Print(r), signature), results) == Region(Print(r), signature)
      {
        ReadAllExact(Region(Print(r), signature), results, zero);
      }
    } else {
      PlainRegion();
      ReadAllExact(Region(Print(PLAIN), XSignature()), results, zero);
    }
  }

  /** A framed region read in two halves: the loop reports success and the buffer is wrong. */
  lemma SplitReadIsWrong()
    ensures var region := Region(Print(PLAIN), XSignature());
            && Frame(region).Some?
            && ReadAll(region, seq(REGION_SIZE, _ => NUL), [2048, 2048], REGION_SIZE).0.Done?
            && Arrived(region, [2048, 2048]) != region
  {
    PlainRegion();
    var results := [2048, 2048];
    var region, zero: seq<char> := Region(Print(PLAIN), XSignature()), seq(REGION_SIZE, _ => NUL);
    assert results[1..] == [2048] && [2048][1..] == [];
    assert results[..2] == results && Sum(results) == REGION_SIZE;
    assert Delivered(results, REGION_SIZE);
    LoopEndsIff(region, zero, results, REGION_SIZE);
    ReadAllExact(region, results, zero);
  }
}
