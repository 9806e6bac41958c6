/**
 The command line (src/cominit.c:160-218): one pass over the arguments that
 handles every option in turn and skips the rest of an argument on a bad value,
 proved equal to one independent fold for each option.
 */
module CommandLine {
  import opened Wrappers
  import opened CStrings
  import opened Numbers
  import opened Pcr

  const DEV_PATH_MAX: nat := 256
  const LOG_LEVEL_COUNT: nat := 6
  const LOG_LEVEL_INVALID: nat := 7
  const TWO32: nat := 0x1_0000_0000

  /** The two spellings of an option. */
  datatype Key = Key(short: string, long: string)

  const ROOT := Key("root", "cominit.rootfs")
  const LOG := Key("logLevel", "cominit.logLevel")
  const EXTEND := Key("pcrExtend", "cominit.pcrExtend")
  const BLOB := Key("blob", "cominit.blob")
  const SEAL := Key("pcrSeal", "cominit.pcrSeal")
  const SECURE := Key("crypt", "cominit.crypt")

  // ----- One argument -----

  /** `cominitParseArgValue`: the text behind `key=`, if the argument starts so. */
  function ArgValue(arg: string, key: Key): (v: Option<string>) {
    if key.short + "=" <= arg then Some(arg[|key.short| + 1..])
    else if key.long + "=" <= arg then Some(arg[|key.long| + 1..])
    else None
  }

  /** `cominitParseDeviceNode`. */
  function DeviceNode(value: string): (dev: Option<string>) {
    if "/dev/" <= value && |value| < DEV_PATH_MAX then Some(value) else None
  }

  /**
   A number that makes up the whole value and is below `bound`. Whether the C
   library reports an error for an empty value is up to the library: `einval`.
   */
  function WholeNumber(value: string, bound: nat, einval: bool): (n: Option<nat>) {
    var r := StrToUL(value, 0);
    if r.range || (value == "" && einval) || r.end != |value| || r.value >= bound then None else Some(r.value)
  }

  /** `cominitOutputParseLogLevel`; the number is cut to 32 bits before it is compared. */
  function LogLevel(value: string, einval: bool): (n: nat) {
    match WholeNumber(value, TWO64, einval)
    case None => LOG_LEVEL_INVALID
    case Some(n) => if n % TWO32 < LOG_LEVEL_COUNT then n % TWO32 else LOG_LEVEL_INVALID
  }

  /**
   A number is taken as log level exactly when it fits 64 bits and its lower 32 bits are
   one of the levels, which is then set; so 2^32 sets level 0.
   */
  lemma LogLevelOfNumber(n: nat, einval: bool)
    ensures LogLevel(Decimal(n), einval) ==
            if n < TWO64 && n % 0x1_0000_0000 < 6 then n % 0x1_0000_0000 else 7
  {
    NumberRead(n);
    hide StrToUL, Decimal;
  }

  /** A number is taken as an index exactly when it is below the bound. */
  lemma IndexOfNumber(n: nat, bound: nat, einval: bool)
    requires bound <= TWO64
    ensures WholeNumber(Decimal(n), bound, einval) == if n < bound then Some(n) else None
  {
    NumberRead(n);
    hide StrToUL, Decimal;
  }

  lemma NumberRead(n: nat)
    ensures StrToUL(Decimal(n), 0) == Number(if n < TWO64 then n else TWO64 - 1, |Decimal(n)|, n >= TWO64)
    ensures Decimal(n) != ""
  {
    if n == 0 {
      ZeroRead();
    } else {
      DecimalLeadingDigit(n);
      DecimalRoundTrip(n);
      StrToULDetects(Decimal(n));
      StrToULDecimal(Decimal(n));
      hide Decimal, Value, StrToUL;
    }
  }

  lemma ZeroRead()
    ensures Decimal(0) == "0" && StrToUL("0", 0) == Number(0, 1, false)
  {
    var s := "0";
    SpanUnique(s, WHITESPACE, 0);
    assert s[0..] == s && s[1..] == "" && s[..1] == s;
    DigitRunUnique(s, 8, 1);
    assert Value(s, 8) == 0;
  }

  /** `--version` and `--help` end the program. */
  predicate AsksForInfo(arg: string) {
    arg == "-V" || arg == "--version" || arg == "-h" || arg == "--help"
  }

  predicate IsSelinux(arg: string) {
    arg == "selinux" || arg == "cominit.selinux"
  }

  predicate IsEnforcing(arg: string) {
    arg == "enforcing" || arg == "cominit.enforcing"
  }

  // ----- One fold for each option -----

  /** The last valid device node given for `key`, empty without one. */
  function DeviceOf(argv: seq<string>, key: Key): (dev: string) {
    if argv == [] then ""
    else
      var v := ArgValue(argv[|argv| - 1], key);
      if v.Some? && DeviceNode(v.value).Some? then v.value else DeviceOf(argv[..|argv| - 1], key)
  }

  /** The value of the last argument with `key`, valid or not. */
  function LastValue(argv: seq<string>, key: Key): (v: Option<string>) {
    if argv == [] then None
    else
      var v := ArgValue(argv[|argv| - 1], key);
      if v.Some? then v else LastValue(argv[..|argv| - 1], key)
  }

  /** The argument gives a valid device node for `key`. */
  predicate GivesDevice(arg: string, key: Key) {
    var v := ArgValue(arg, key);
    v.Some? && "/dev/" <= v.value && |v.value| < 256
  }

  /** Invalid occurrences of a device option are passed over: the last valid one counts. */
  lemma {:induction false} LastValidDevice(argv: seq<string>, key: Key)
    ensures DeviceOf(argv, key) == "" <==> forall i :: 0 <= i < |argv| ==> !GivesDevice(argv[i], key)
    ensures forall i :: 0 <= i < |argv| && GivesDevice(argv[i], key)
                        && (forall j :: i < j < |argv| ==> !GivesDevice(argv[j], key)) ==>
              DeviceOf(argv, key) == ArgValue(argv[i], key).value
  {
    hide ArgValue;
    if argv == [] {
    } else {
      var init, last := argv[..|argv| - 1], argv[|argv| - 1];
      LastValidDevice(init, key);
      assert forall i :: 0 <= i < |init| ==> init[i] == argv[i];
      if !GivesDevice(last, key) {
        assert forall i :: 0 <= i < |argv| && GivesDevice(argv[i], key) ==> i < |init|;
      }
    }
  }

  /** An option with a value is decided by its last occurrence alone, even if that is invalid. */
  lemma {:induction false} LastOccurrenceDecides(argv: seq<string>, key: Key, i: nat)
    requires i < |argv| && ArgValue(argv[i], key).Some? && forall j :: i < j < |argv| ==> ArgValue(argv[j], key).None?
    ensures LastValue(argv, key) == ArgValue(argv[i], key)
  {
    hide ArgValue;
    if i == |argv| - 1 {
    } else {
      LastOccurrenceDecides(argv[..|argv| - 1], key, i);
    }
  }

  function LogLevelOf(argv: seq<string>, einval: bool): (n: nat) {
    match LastValue(argv, LOG) case None => LOG_LEVEL_INVALID case Some(v) => LogLevel(v, einval)
  }

  function PcrIndexOf(argv: seq<string>, count: nat, einval: bool): (n: Option<nat>) {
    match LastValue(argv, EXTEND) case None => None case Some(v) => WholeNumber(v, count, einval)
  }

  function PcrListOf(argv: seq<string>, count: nat): (ns: seq<nat>) {
    match LastValue(argv, SEAL) case None => [] case Some(v) => PcrList(v, count)
  }

  /** What the options say. */
  datatype Options = Options(
    root: string, blob: string, secure: string, logLevel: nat, selinux: bool, enforcing: bool,
    extend: Option<nat>, seal: seq<nat>)

  predicate Any(argv: seq<string>, flag: string -> bool) {
    exists i :: 0 <= i < |argv| && flag(argv[i])
  }

  /** Every option by its own fold. */
  function OptionsOf(argv: seq<string>, count: nat, einval: bool): (o: Options) {
    Options(DeviceOf(argv, ROOT), DeviceOf(argv, BLOB), DeviceOf(argv, SECURE), LogLevelOf(argv, einval),
            Any(argv, IsSelinux), Any(argv, IsEnforcing), PcrIndexOf(argv, count, einval), PcrListOf(argv, count))
  }

  /** The device node after one more argument. */
  function NewDevice(arg: string, key: Key, dev: string): (r: string) {
    match ArgValue(arg, key)
    case None => dev
    case Some(v) => if DeviceNode(v).Some? then v else dev
  }

  /** One argument more, seen by all options. */
  function Step(o: Options, arg: string, count: nat, einval: bool): (o': Options) {
    Options(
      NewDevice(arg, ROOT, o.root), NewDevice(arg, BLOB, o.blob), NewDevice(arg, SECURE, o.secure),
      (match ArgValue(arg, LOG) case None => o.logLevel case Some(v) => LogLevel(v, einval)),
      o.selinux || IsSelinux(arg), o.enforcing || IsEnforcing(arg),
      (match ArgValue(arg, EXTEND) case None => o.extend case Some(v) => WholeNumber(v, count, einval)),
      (match ArgValue(arg, SEAL) case None => o.seal case Some(v) => PcrList(v, count)))
  }

  lemma FoldStep(argv: seq<string>, arg: string, key: Key)
    ensures DeviceOf(argv + [arg], key) == NewDevice(arg, key, DeviceOf(argv, key))
    ensures LastValue(argv + [arg], key) ==
            if ArgValue(arg, key).Some? then ArgValue(arg, key) else LastValue(argv, key)
  {
    hide ArgValue, DeviceNode;
    var all := argv + [arg];
    assert all[..|all| - 1] == argv && all[|all| - 1] == arg;
  }

  lemma FlagStep(argv: seq<string>, arg: string, flag: string -> bool)
    ensures Any(argv + [arg], flag) <==> Any(argv, flag) || flag(arg)
  {
    var all := argv + [arg];
    assert forall i :: 0 <= i < |argv| ==> all[i] == argv[i];
    assert all[|argv|] == arg;
  }

  /** The independent folds move together. */
  lemma OptionsStep(argv: seq<string>, arg: string, count: nat, einval: bool)
    ensures OptionsOf(argv + [arg], count, einval) == Step(OptionsOf(argv, count, einval), arg, count, einval)
  {
    FoldStep(argv, arg, ROOT);
    FoldStep(argv, arg, LOG);
    FoldStep(argv, arg, EXTEND);
    FoldStep(argv, arg, BLOB);
    FoldStep(argv, arg, SEAL);
    FoldStep(argv, arg, SECURE);
    FlagStep(argv, arg, IsSelinux);
    FlagStep(argv, arg, IsEnforcing);
    hide DeviceOf, LastValue, ArgValue, IsSelinux, IsEnforcing, Any, LogLevel, WholeNumber, PcrList, NewDevice;
  }

  lemma NoOptions(argv: seq<string>, count: nat, einval: bool)
    requires argv == []
    ensures OptionsOf(argv, count, einval) == Options("", "", "", LOG_LEVEL_INVALID, false, false, None, [])
  {
  }

  // ----- The pass over the arguments -----

  /** `cominitCliArgs_t`. */
  class CliArgs {
    var pcrSet: bool
    var pcrIndex: nat
    var pcrSealCount: nat
    const pcrSeal: array<nat>
    var devNodeBlob: string
    var devNodeCrypt: string
    var devNodeRootFs: string
    var enableSelinux: bool
    var enableEnforceMode: bool
    var visibleLogLevel: nat

    constructor (pcrCount: nat)
      requires pcrCount <= TWO64
      ensures Valid() && pcrSeal.Length == pcrCount && fresh(pcrSeal)
      ensures View() == Options("", "", "", LOG_LEVEL_INVALID, false, false, None, [])
    {
      pcrSet, pcrIndex, pcrSealCount := false, 0, 0;
      pcrSeal := new nat[pcrCount](_ => 0);
      devNodeBlob, devNodeCrypt, devNodeRootFs := "", "", "";
      enableSelinux, enableEnforceMode := false, false;
      visibleLogLevel := LOG_LEVEL_INVALID;
    }

    ghost predicate Valid()
      reads this
    {
      pcrSealCount <= pcrSeal.Length <= TWO64
    }

    /** The options as the fields hold them. */
    ghost function View(): (o: Options)
      requires Valid()
      reads this, pcrSeal
    {
      Options(devNodeRootFs, devNodeBlob, devNodeCrypt, visibleLogLevel, enableSelinux, enableEnforceMode,
              if pcrSet then Some(pcrIndex) else None, pcrSeal[..pcrSealCount])
    }

    /** `cominitTpmParsePcrIndex`: a bad value switches the option off. */
    method ParsePcrIndex(value: string, einval: bool) returns (ok: bool)
      requires Valid()
      modifies this`pcrSet, this`pcrIndex
      ensures ok == pcrSet
      ensures View() == old(View()).(extend := WholeNumber(value, pcrSeal.Length, einval))
    {
      pcrSet := false;
      var n := WholeNumber(value, pcrSeal.Length, einval);
      if n.Some? { pcrSet, pcrIndex := true, n.value; }
      ok := pcrSet;
    }

    /** `cominitTpmParsePcrIndexes` on the fields. */
    method ParsePcrList(value: string) returns (ok: bool)
      requires Valid()
      modifies this`pcrSealCount, pcrSeal
      ensures Valid() && View() == old(View()).(seal := PcrList(value, pcrSeal.Length))
      ensures ok <==> pcrSealCount > 0
    {
      pcrSealCount := ParsePcrIndexes(pcrSeal, value);
      ok := pcrSealCount > 0;
    }

    /** One round of the loop: every option is tried, and a bad value skips the rest of the round. */
    method ParseArg(arg: string, einval: bool)
      requires Valid()
      modifies this, pcrSeal
      ensures Valid() && View() == Step(old(View()), arg, pcrSeal.Length, einval)
    {
      OneKey(arg);
      hide PcrList, WholeNumber, LogLevel, DeviceNode, ArgValue, IsSelinux, IsEnforcing;
      var value := ArgValue(arg, ROOT);
      if value.Some? {
        if DeviceNode(value.value).None? { return; }
        devNodeRootFs := value.value;
      }
      value := ArgValue(arg, LOG);
      if value.Some? {
        visibleLogLevel := LogLevel(value.value, einval);
        if visibleLogLevel == LOG_LEVEL_INVALID { return; }
      }
      if IsSelinux(arg) { enableSelinux := true; }
      if IsEnforcing(arg) { enableEnforceMode := true; }
      value := ArgValue(arg, EXTEND);
      if value.Some? {
        var ok := ParsePcrIndex(value.value, einval);
        if !ok { return; }
      }
      value := ArgValue(arg, BLOB);
      if value.Some? {
        if DeviceNode(value.value).None? { return; }
        devNodeBlob := value.value;
      }
      value := ArgValue(arg, SEAL);
      if value.Some? {
        var ok := ParsePcrList(value.value);
        if !ok { return; }
      }
      value := ArgValue(arg, SECURE);
      if value.Some? {
        if DeviceNode(value.value).None? { return; }
        devNodeCrypt := value.value;
      }
    }
  }

  /** The part of an argument in front of its first `=`. */
  function KeyOf(arg: string): (k: string) {
    arg[..CSpan(arg, {'='})]
  }

  lemma PrefixIsKey(arg: string, key: string)
    requires '=' !in key
    ensures key + "=" <= arg <==> '=' in arg && KeyOf(arg) == key
  {
    CSpanProps(arg, {'='});
    if key + "=" <= arg {
      assert forall i :: 0 <= i < |key| ==> arg[i] == (key + "=")[i] == key[i];
      assert arg[|key|] == (key + "=")[|key|] == '=';
      CSpanUnique(arg, {'='}, |key|);
      assert arg[..|key|] == key;
    }
  }

  lemma HasKey(arg: string, key: Key)
    requires '=' !in key.short && '=' !in key.long
    ensures ArgValue(arg, key).Some? <==> '=' in arg && (KeyOf(arg) == key.short || KeyOf(arg) == key.long)
  {
    PrefixIsKey(arg, key.short);
    PrefixIsKey(arg, key.long);
  }

  /** The keys differ in length, except for two that differ in their first letter. */
  predicate Shape(k: string, short: nat, long: nat, first: char) {
    |k| == long || (|k| == short && short > 0 && k[0] == first)
  }

  lemma KeyShape(arg: string, key: Key, short: nat, long: nat, first: char)
    requires '=' !in key.short && '=' !in key.long && |key.short| == short > 0 && |key.long| == long
    requires key.short[0] == first
    ensures ArgValue(arg, key).Some? ==> '=' in arg && Shape(KeyOf(arg), short, long, first)
  {
    HasKey(arg, key);
  }

  lemma KeyShapes(arg: string)
    ensures ArgValue(arg, ROOT).Some? ==> '=' in arg && Shape(KeyOf(arg), 4, 14, 'r')
    ensures ArgValue(arg, LOG).Some? ==> '=' in arg && Shape(KeyOf(arg), 8, 16, 'l')
    ensures ArgValue(arg, EXTEND).Some? ==> '=' in arg && Shape(KeyOf(arg), 9, 17, 'p')
  {
    hide ArgValue, KeyOf, Shape;
    KeyShape(arg, ROOT, 4, 14, 'r');
    KeyShape(arg, LOG, 8, 16, 'l');
    KeyShape(arg, EXTEND, 9, 17, 'p');
  }

  lemma MoreKeyShapes(arg: string)
    ensures ArgValue(arg, BLOB).Some? ==> '=' in arg && Shape(KeyOf(arg), 4, 12, 'b')
    ensures ArgValue(arg, SEAL).Some? ==> '=' in arg && Shape(KeyOf(arg), 7, 15, 'p')
    ensures ArgValue(arg, SECURE).Some? ==> '=' in arg && Shape(KeyOf(arg), 5, 13, 'c')
  {
    hide ArgValue, KeyOf, Shape;
    KeyShape(arg, BLOB, 4, 12, 'b');
    KeyShape(arg, SEAL, 7, 15, 'p');
    KeyShape(arg, SECURE, 5, 13, 'c');
  }

  lemma FlagsHaveNoValue(arg: string)
    requires IsSelinux(arg) || IsEnforcing(arg)
    ensures '=' !in arg
  {
  }

  /** The option an argument belongs to, counted in the order in which the loop tries them; 0 for none. */
  function OptionNumber(arg: string): (n: nat) {
    if ArgValue(arg, ROOT).Some? then 1
    else if ArgValue(arg, LOG).Some? then 2
    else if ArgValue(arg, EXTEND).Some? then 3
    else if ArgValue(arg, BLOB).Some? then 4
    else if ArgValue(arg, SEAL).Some? then 5
    else if ArgValue(arg, SECURE).Some? then 6
    else 0
  }

  /** No argument matches two options, and none that matches an option is a flag. */
  lemma OneKey(arg: string)
    ensures ArgValue(arg, ROOT).Some? <==> OptionNumber(arg) == 1
    ensures ArgValue(arg, LOG).Some? <==> OptionNumber(arg) == 2
    ensures ArgValue(arg, EXTEND).Some? <==> OptionNumber(arg) == 3
    ensures ArgValue(arg, BLOB).Some? <==> OptionNumber(arg) == 4
    ensures ArgValue(arg, SEAL).Some? <==> OptionNumber(arg) == 5
    ensures ArgValue(arg, SECURE).Some? <==> OptionNumber(arg) == 6
    ensures OptionNumber(arg) != 0 ==> !IsSelinux(arg) && !IsEnforcing(arg)
  {
    hide ArgValue, KeyOf, IsSelinux, IsEnforcing;
    KeyShapes(arg);
    MoreKeyShapes(arg);
    if IsSelinux(arg) || IsEnforcing(arg) { FlagsHaveNoValue(arg); }
  }

  /**
   The argument loop: stops at a version or help flag, and otherwise leaves every
   field at the value of its own fold over all arguments.
   */
  method ParseArgs(argv: seq<string>, pcrCount: nat, einval: bool) returns (args: Option<CliArgs>)
    requires pcrCount <= TWO64
    ensures args.Some? <==> forall i :: 0 <= i < |argv| ==>
                              argv[i] != "-V" && argv[i] != "--version" && argv[i] != "-h" && argv[i] != "--help"
    ensures args.Some? ==> fresh(args.value) && fresh(args.value.pcrSeal)
    ensures args.Some? ==> args.value.Valid() && args.value.View() == OptionsOf(argv, pcrCount, einval)
  {
    hide Step, OptionsOf;
    var ctx := new CliArgs(pcrCount);
    var i := 0;
    NoOptions(argv[..0], pcrCount, einval);
    while i < |argv|
      invariant 0 <= i <= |argv|
      invariant fresh(ctx) && fresh(ctx.pcrSeal) && ctx.pcrSeal.Length == pcrCount
      invariant ctx.Valid() && ctx.View() == OptionsOf(argv[..i], pcrCount, einval)
      invariant forall k :: 0 <= k < i ==> !AsksForInfo(argv[k])
    {
      if AsksForInfo(argv[i]) { return None; }
      ctx.ParseArg(argv[i], einval);
      OptionsStep(argv[..i], argv[i], pcrCount, einval);
      assert argv[..i + 1] == argv[..i] + [argv[i]];
      i := i + 1;
    }
    assert argv[..i] == argv;
    return Some(ctx);
  }

  // ----- The options by their names -----

  /** The value of an option is what stands behind its name and `=`, in both spellings. */
  lemma ArgValueOf(key: Key, v: string)
    requires '=' !in key.short && '=' !in key.long && key.short != key.long
    ensures ArgValue(key.short + "=" + v, key) == Some(v)
    ensures ArgValue(key.long + "=" + v, key) == Some(v)
  {
    var a, b := key.short + "=" + v, key.long + "=" + v;
    assert a[|key.short| + 1..] == v && b[|key.long| + 1..] == v;
    PrefixIsKey(b, key.short);
    PrefixIsKey(b, key.long);
    assert key.long + "=" <= b;
  }

  /** One more argument that belongs to option `k` changes that option and no other. */
  lemma OneOption(o: Options, arg: string, count: nat, einval: bool)
    ensures OneOptionOf(o, Step(o, arg, count, einval), OptionNumber(arg))
  {
    OneKey(arg);
    hide ArgValue, OptionNumber, WholeNumber, LogLevel, PcrList, DeviceNode, IsSelinux, IsEnforcing;
  }

  /** `pcrExtend=v` as the last argument decides that option and leaves the others. */
  lemma LastIsExtend(argv: seq<string>, arg: string, v: string, count: nat, einval: bool)
    requires arg == "pcrExtend=" + v || arg == "cominit.pcrExtend=" + v
    ensures var o := OptionsOf(argv, count, einval);
            OptionsOf(argv + [arg], count, einval) == o.(extend := WholeNumber(v, count, einval))
  {
    hide ArgValue, OptionsOf, WholeNumber, PcrList, LogLevel, OptionNumber, GivesDevice;
    ArgValueOf(EXTEND, v);
    assert "pcrExtend" + "=" + v == "pcrExtend=" + v && "cominit.pcrExtend" + "=" + v == "cominit.pcrExtend=" + v;
    Decided(argv, arg, count, einval);
  }

  /** So does `pcrSeal=v`. */
  lemma LastIsSeal(argv: seq<string>, arg: string, v: string, count: nat, einval: bool)
    requires arg == "pcrSeal=" + v || arg == "cominit.pcrSeal=" + v
    ensures var o := OptionsOf(argv, count, einval);
            OptionsOf(argv + [arg], count, einval) == o.(seal := PcrList(v, count))
  {
    hide ArgValue, OptionsOf, WholeNumber, PcrList, LogLevel, OptionNumber, GivesDevice;
    ArgValueOf(SEAL, v);
    assert "pcrSeal" + "=" + v == "pcrSeal=" + v && "cominit.pcrSeal" + "=" + v == "cominit.pcrSeal=" + v;
    Decided(argv, arg, count, einval);
  }

  /** And `logLevel=v`. */
  lemma LastIsLogLevel(argv: seq<string>, arg: string, v: string, count: nat, einval: bool)
    requires arg == "logLevel=" + v || arg == "cominit.logLevel=" + v
    ensures var o := OptionsOf(argv, count, einval);
            OptionsOf(argv + [arg], count, einval) == o.(logLevel := LogLevel(v, einval))
  {
    hide ArgValue, OptionsOf, WholeNumber, PcrList, LogLevel, OptionNumber, GivesDevice;
    ArgValueOf(LOG, v);
    assert "logLevel" + "=" + v == "logLevel=" + v && "cominit.logLevel" + "=" + v == "cominit.logLevel=" + v;
    Decided(argv, arg, count, einval);
  }

  /** A device option as the last argument decides it if the value is a device node, and else changes nothing. */
  lemma LastIsRoot(argv: seq<string>, arg: string, v: string, count: nat, einval: bool)
    requires arg == "root=" + v || arg == "cominit.rootfs=" + v
    ensures var o := OptionsOf(argv, count, einval);
            OptionsOf(argv + [arg], count, einval) == if "/dev/" <= v && |v| < 256 then o.(root := v) else o
  {
    hide ArgValue, OptionsOf, WholeNumber, PcrList, LogLevel, OptionNumber, GivesDevice;
    ArgValueOf(ROOT, v);
    assert "root" + "=" + v == "root=" + v && "cominit.rootfs" + "=" + v == "cominit.rootfs=" + v;
    Decided(argv, arg, count, einval);
  }

  lemma LastIsBlob(argv: seq<string>, arg: string, v: string, count: nat, einval: bool)
    requires arg == "blob=" + v || arg == "cominit.blob=" + v
    ensures var o := OptionsOf(argv, count, einval);
            OptionsOf(argv + [arg], count, einval) == if "/dev/" <= v && |v| < 256 then o.(blob := v) else o
  {
    hide ArgValue, OptionsOf, WholeNumber, PcrList, LogLevel, OptionNumber, GivesDevice;
    ArgValueOf(BLOB, v);
    assert "blob" + "=" + v == "blob=" + v && "cominit.blob" + "=" + v == "cominit.blob=" + v;
    Decided(argv, arg, count, einval);
  }

  lemma LastIsSecure(argv: seq<string>, arg: string, v: string, count: nat, einval: bool)
    requires arg == "crypt=" + v || arg == "cominit.crypt=" + v
    ensures var o := OptionsOf(argv, count, einval);
            OptionsOf(argv + [arg], count, einval) == if "/dev/" <= v && |v| < 256 then o.(secure := v) else o
  {
    hide ArgValue, OptionsOf, WholeNumber, PcrList, LogLevel, OptionNumber, GivesDevice;
    ArgValueOf(SECURE, v);
    assert "crypt" + "=" + v == "crypt=" + v && "cominit.crypt" + "=" + v == "cominit.crypt=" + v;
    Decided(argv, arg, count, einval);
  }

  lemma Decided(argv: seq<string>, arg: string, count: nat, einval: bool)
    ensures OptionsOf(argv + [arg], count, einval) == Step(OptionsOf(argv, count, einval), arg, count, einval)
    ensures OneOptionOf(OptionsOf(argv, count, einval), OptionsOf(argv + [arg], count, einval), OptionNumber(arg))
    ensures ArgValue(arg, ROOT).Some? <==> OptionNumber(arg) == 1
    ensures ArgValue(arg, LOG).Some? <==> OptionNumber(arg) == 2
    ensures ArgValue(arg, EXTEND).Some? <==> OptionNumber(arg) == 3
    ensures ArgValue(arg, BLOB).Some? <==> OptionNumber(arg) == 4
    ensures ArgValue(arg, SEAL).Some? <==> OptionNumber(arg) == 5
    ensures ArgValue(arg, SECURE).Some? <==> OptionNumber(arg) == 6
  {
    OptionsStep(argv, arg, count, einval);
    OneOption(OptionsOf(argv, count, einval), arg, count, einval);
    OneKey(arg);
    hide OptionsOf, Step, ArgValue;
  }

  /** Everything but option `k` is the same; flags are too, if there is an option. */
  predicate OneOptionOf(o: Options, o': Options, k: nat) {
    && (k != 1 ==> o'.root == o.root) && (k != 2 ==> o'.logLevel == o.logLevel)
    && (k != 3 ==> o'.extend == o.extend) && (k != 4 ==> o'.blob == o.blob)
    && (k != 5 ==> o'.seal == o.seal) && (k != 6 ==> o'.secure == o.secure)
    && (k != 0 ==> o'.selinux == o.selinux && o'.enforcing == o.enforcing)
  }

  /** Without arguments nothing is set; the flags are set exactly by their words. */
  lemma Flags(argv: seq<string>, count: nat, einval: bool)
    ensures OptionsOf([], count, einval) == Options("", "", "", 7, false, false, None, [])
    ensures OptionsOf(argv, count, einval).selinux <==> "selinux" in argv || "cominit.selinux" in argv
    ensures OptionsOf(argv, count, einval).enforcing <==> "enforcing" in argv || "cominit.enforcing" in argv
  {
    NoOptions([], count, einval);
    var o := OptionsOf(argv, count, einval);
    assert o.selinux == Any(argv, IsSelinux) && o.enforcing == Any(argv, IsEnforcing);
    hide OptionsOf;
    if w :| w in argv && (w == "selinux" || w == "cominit.selinux") {
      var i :| 0 <= i < |argv| && argv[i] == w;
      assert IsSelinux(argv[i]);
    }
    if w :| w in argv && (w == "enforcing" || w == "cominit.enforcing") {
      var i :| 0 <= i < |argv| && argv[i] == w;
      assert IsEnforcing(argv[i]);
    }
  }
}
