/**
 The seal/unseal protocol of src/tpm.c and src/securememory.c as a state machine.
 An action is one external call that had an effect; a call that failed without
 one is no action. What is on the blob partition, in the TPM's persistent slot and
 on the encrypted partition survives a power cut; everything else is per boot.
 */
module SealProtocol {
  import opened Wrappers
  import opened Numbers
  import opened Pcr

  const PASSPHRASE_SIZE: nat := 32

  /** The policy digest, standing for the registers selected and their values; assumed collision free. */
  type Policy = map<nat, nat>

  /** Register values at the time of the boot. */
  type Pcrs = nat -> nat

  /** Given with the boot: register values and selection bitmap. */
  datatype Params = Params(pcrs: Pcrs, sel: seq<bv8>)

  function PolicyOf(p: Params): (policy: Policy) {
    map k | k in SelectedSet(p.sel) :: p.pcrs(k)
  }

  /** A sealed object: bound to the primary key that made it and to a policy. */
  datatype Blob = Blob(secret: seq<Byte>, parent: nat, policy: Policy)

  /** The file /tpm/sealed.blob; `Torn` is a file that is there but not complete. */
  datatype BlobFile = Absent | Torn | Whole(blob: Blob)

  /** A passphrase given to luksFormat; `OverRead` is memory past a key buffer of unknown content. */
  datatype Passphrase = Key(bytes: seq<Byte>) | OverRead

  /**
   The encrypted partition: as found, broken by an interrupted luksFormat, or formatted by
   this code. As found, it may be a volume with a token that some key already opens.
   */
  datatype Volume = Foreign(key: Option<seq<Byte>>) | Broken | Luks(passphrase: Passphrase, token: bool, fs: bool)

  /** `cryptsetup luksOpen` with `key` in the keyring works. */
  predicate Opens(v: Volume, key: seq<Byte>) {
    match v
    case Foreign(k) => k == Some(key)
    case Broken => false
    case Luks(passphrase, token, _) => token && passphrase == Key(key)
  }

  /** What survives a power cut; `slot` is the key at TPM2_PERSISTENT_FIRST. */
  datatype Persistent = Persistent(blob: BlobFile, slot: Option<nat>, volume: Volume)

  /** What looking for the blob file showed. */
  datatype Look = Unknown | NoBlob | HasBlob

  /** Sealing: transient primary key, result of Esys_Create, and how far the rest got. */
  datatype Sealing = Sealing(primary: Option<nat>, product: Option<Blob>, persisted: bool, wrote: bool, synced: bool)

  /** Unsealing: blob loaded into the TPM, result of Esys_Unseal, and the user key "secureStorage". */
  datatype Unsealing = Unsealing(loaded: Option<Blob>, secret: Option<seq<Byte>>, keyring: Option<seq<Byte>>)

  /** The encrypted volume in this boot. */
  datatype Storage = Storage(formatted: bool, isOpen: bool, made: bool)

  /** What one boot knows and holds; `live` are the live sessions and transient objects. */
  datatype Boot = Boot(params: Params, look: Look, seal: Sealing, unseal: Unsealing, storage: Storage, live: set<nat>)

  datatype State = State(d: Persistent, b: Boot)

  function Start(d: Persistent, params: Params): (s: State) {
    State(d, Boot(params, Unknown, Sealing(None, None, false, false, false), Unsealing(None, None, None),
                  Storage(false, false, false), {}))
  }

  datatype Action =
    | FoundNone | FoundBlob                 // access()
    | NewPrimary(key: nat)                  // Esys_CreatePrimary
    | NewObject(secret: seq<Byte>)          // Esys_Create
    | Persist                               // Esys_EvictControl
    | CreateFile | WriteFile                // fopen "wb", the two fwrite calls
    | LoadObject                            // Esys_TR_FromTPMPublic, fread, Esys_Load
    | Unseal                                // Esys_Unseal
    | AddKey                                // add_key
    | Format(keyRead: bool) | FormatFailed  // cryptsetup luksFormat
    | AddToken | Open | MakeFs              // cryptsetup token add, luksOpen, mkfs.ext4
    | Unmount                               // umount
    | NewHandle(h: nat) | Flush(h: nat)     // a session or transient object

  /** When an action can happen: what the program has done so far, and what TPM and kernel allow. */
  predicate Enabled(s: State, a: Action) {
    match a
    case FoundNone => s.b.look.Unknown? && s.d.blob.Absent?
    case FoundBlob => s.b.look.Unknown? && !s.d.blob.Absent?
    case NewPrimary(_) => s.b.look.NoBlob? && s.b.seal.primary.None?
    case NewObject(secret) =>
      s.b.seal.primary.Some? && !s.b.seal.persisted && s.b.seal.product.None? && |secret| == PASSPHRASE_SIZE
    case Persist => s.b.seal.primary.Some? && !s.b.seal.persisted && s.d.slot.None?
    case CreateFile => s.b.seal.persisted && !s.b.seal.wrote
    case WriteFile => s.b.seal.wrote && s.b.seal.product.Some? && s.d.blob.Torn?
    case LoadObject =>
      (s.b.seal.wrote || s.b.look.HasBlob?) && s.d.blob.Whole? && s.d.slot == Some(s.d.blob.blob.parent)
    case Unseal => s.b.unseal.loaded.Some? && s.b.unseal.loaded.value.policy == PolicyOf(s.b.params)
    case AddKey => s.b.unseal.secret.Some?
    case Format(_) => s.b.look.NoBlob? && s.b.unseal.keyring.Some? && !s.b.storage.formatted && !s.b.storage.isOpen
    case FormatFailed => s.b.look.NoBlob? && s.b.unseal.keyring.Some? && !s.b.storage.formatted && !s.b.storage.isOpen
    case AddToken => s.b.storage.formatted && s.d.volume.Luks?
    case Open =>
      s.b.unseal.keyring.Some? && Opens(s.d.volume, s.b.unseal.keyring.value)
    case MakeFs => s.b.storage.formatted && s.b.storage.isOpen && s.d.volume.Luks?
    case Unmount => true
    case NewHandle(h) => h !in s.b.live
    case Flush(h) => h in s.b.live
  }

  function Apply(s: State, a: Action): (s': State)
    requires Enabled(s, a)
  {
    match a
    case FoundNone => s.(b := s.b.(look := NoBlob))
    case FoundBlob => s.(b := s.b.(look := HasBlob))
    case NewPrimary(key) => s.(b := s.b.(seal := s.b.seal.(primary := Some(key))))
    case NewObject(secret) =>
      s.(b := s.b.(seal := s.b.seal.(product := Some(Blob(secret, s.b.seal.primary.value, PolicyOf(s.b.params))))))
    case Persist => s.(d := s.d.(slot := s.b.seal.primary), b := s.b.(seal := s.b.seal.(persisted := true)))
    case CreateFile => s.(d := s.d.(blob := Torn), b := s.b.(seal := s.b.seal.(wrote := true, synced := false)))
    case WriteFile => s.(d := s.d.(blob := Whole(s.b.seal.product.value)))
    case LoadObject => s.(b := s.b.(unseal := s.b.unseal.(loaded := Some(s.d.blob.blob))))
    case Unseal => s.(b := s.b.(unseal := s.b.unseal.(secret := Some(s.b.unseal.loaded.value.secret))))
    case AddKey => s.(b := s.b.(unseal := s.b.unseal.(keyring := s.b.unseal.secret)))
    case Format(keyRead) =>
      s.(d := s.d.(volume := Luks(if keyRead then Key(s.b.unseal.keyring.value) else OverRead, false, false)),
         b := s.b.(storage := s.b.storage.(formatted := true)))
    case FormatFailed => s.(d := s.d.(volume := Broken))
    case AddToken => s.(d := s.d.(volume := s.d.volume.(token := true)))
    case Open => s.(b := s.b.(storage := s.b.storage.(isOpen := true)))
    case MakeFs => s.(d := s.d.(volume := s.d.volume.(fs := true)), b := s.b.(storage := s.b.storage.(made := true)))
    case Unmount => s.(b := s.b.(seal := s.b.seal.(synced := true)))
    case NewHandle(h) => s.(b := s.b.(live := s.b.live + {h}))
    case Flush(h) => s.(b := s.b.(live := s.b.live - {h}))
  }

  // ----- Runs of one boot -----

  ghost predicate Run(start: State, trace: seq<Action>) {
    trace == [] ||
    (Run(start, trace[..|trace| - 1]) && Enabled(Exec(start, trace[..|trace| - 1]), trace[|trace| - 1]))
  }

  ghost function Exec(start: State, trace: seq<Action>): (s: State) {
    if trace == [] then start
    else
      var s := Exec(start, trace[..|trace| - 1]);
      if Enabled(s, trace[|trace| - 1]) then Apply(s, trace[|trace| - 1]) else s
  }

  lemma RunSnoc(start: State, trace: seq<Action>, a: Action)
    requires Run(start, trace) && Enabled(Exec(start, trace), a)
    ensures Run(start, trace + [a]) && Exec(start, trace + [a]) == Apply(Exec(start, trace), a)
  {
    var t := trace + [a];
    assert t[..|t| - 1] == trace && t[|t| - 1] == a;
  }

  /** A boot cut short is a run as well. */
  lemma {:induction false} RunPrefix(start: State, trace: seq<Action>, k: nat)
    requires Run(start, trace) && k <= |trace|
    ensures Run(start, trace[..k])
    decreases |trace|
  {
    if k < |trace| {
      RunPrefix(start, trace[..|trace| - 1], k);
      assert trace[..|trace| - 1][..k] == trace[..k];
    } else {
      assert trace[..k] == trace;
    }
  }

  /** Each action of a run is enabled when it happens. */
  lemma StepAt(start: State, trace: seq<Action>, i: nat)
    requires Run(start, trace) && i < |trace|
    ensures Run(start, trace[..i]) && Enabled(Exec(start, trace[..i]), trace[i])
    ensures Exec(start, trace[..i + 1]) == Apply(Exec(start, trace[..i]), trace[i])
  {
    RunPrefix(start, trace, i + 1);
    assert trace[..i + 1][..i] == trace[..i];
  }

  // ----- What holds at every moment -----

  /** Over all boots: a complete blob has its parent in the slot, and a keyed volume has its secret. */
  ghost predicate Inv(d: Persistent) {
    && (d.blob.Whole? ==> d.slot == Some(d.blob.blob.parent) && |d.blob.blob.secret| == PASSPHRASE_SIZE)
    && (!d.volume.Foreign? ==> d.slot.Some?)
    && (d.volume.Luks? && d.volume.passphrase.Key? && d.blob.Whole? ==> d.volume.passphrase.bytes == d.blob.blob.secret)
  }

  /** Inside one boot that began with `d0`. */
  ghost predicate BootInv(d0: Persistent, s: State) {
    var d, seal, unseal, storage := s.d, s.b.seal, s.b.unseal, s.b.storage;
    && Inv(d)
    && (s.b.look.NoBlob? ==> d0.blob.Absent?)
    && (seal.primary.Some? ==> s.b.look.NoBlob?)
    && (seal.product.Some? ==>
          seal.primary == Some(seal.product.value.parent) && |seal.product.value.secret| == PASSPHRASE_SIZE)
    && (seal.persisted ==> seal.primary.Some? && d0.slot.None? && d0.volume.Foreign? && d.slot == seal.primary)
    && (!seal.persisted ==> d == d0 && !seal.wrote)
    && (!seal.wrote ==> d.blob == d0.blob && d.volume == d0.volume)
    && (seal.wrote && d.blob.Whole? ==> seal.product == Some(d.blob.blob))
    && (unseal.loaded.Some? ==> d.blob == Whole(unseal.loaded.value) && (seal.wrote || s.b.look.HasBlob?))
    && (unseal.secret.Some? ==>
          && unseal.loaded.Some? && unseal.secret.value == unseal.loaded.value.secret
          && unseal.loaded.value.policy == PolicyOf(s.b.params))
    && (unseal.keyring.Some? ==> unseal.keyring == unseal.secret)
    && (storage.formatted ==> seal.wrote && unseal.keyring.Some?)
    && (d.volume != d0.volume ==> seal.wrote && unseal.keyring.Some?)
    && (storage.isOpen ==> unseal.keyring.Some? && Opens(d.volume, unseal.keyring.value))
  }

  lemma StepKeepsInv(d0: Persistent, s: State, a: Action)
    requires BootInv(d0, s) && Enabled(s, a)
    ensures BootInv(d0, Apply(s, a))
  {
    hide PolicyOf;
  }

  lemma {:induction false} RunKeepsInv(d: Persistent, p: Params, trace: seq<Action>)
    requires Inv(d) && Run(Start(d, p), trace)
    ensures BootInv(d, Exec(Start(d, p), trace))
    decreases |trace|
  {
    hide Inv;
    if trace == [] {
    } else {
      RunKeepsInv(d, p, trace[..|trace| - 1]);
      StepKeepsInv(d, Exec(Start(d, p), trace[..|trace| - 1]), trace[|trace| - 1]);
    }
  }

  // ----- One boot -----

  /** The device already has a persisted key or a blob file. */
  predicate SetUp(d: Persistent) {
    d.slot.Some? || !d.blob.Absent?
  }

  /** Once the device is set up, no run of any boot changes anything persistent. */
  lemma SetUpIsFrozen(d: Persistent, p: Params, trace: seq<Action>)
    requires Inv(d) && SetUp(d) && Run(Start(d, p), trace)
    ensures Exec(Start(d, p), trace).d == d
    ensures !Exec(Start(d, p), trace).b.seal.wrote
  {
    RunKeepsInv(d, p, trace);
  }

  predicate IsFormat(a: Action) {
    a.Format? || a.FormatFailed? || a.MakeFs?
  }

  /**
   luksFormat and mkfs happen only in a boot that began with neither blob file nor
   persisted key, and only with the blob completely written and its secret unsealed.
   */
  lemma FormatComesAfterBlob(d: Persistent, p: Params, trace: seq<Action>, i: nat)
    requires Inv(d) && Run(Start(d, p), trace) && i < |trace| && IsFormat(trace[i])
    ensures !SetUp(d)
    ensures WriteFile in trace[..i]
    ensures var s := Exec(Start(d, p), trace[..i]);
            s.d.blob.Whole? && s.b.unseal.keyring == Some(s.d.blob.blob.secret)
  {
    hide PolicyOf;
    var start := Start(d, p);
    StepAt(start, trace, i);
    RunKeepsInv(d, p, trace[..i]);
    if WriteFile !in trace[..i] {
      NoWriteNoBlob(start, trace[..i]);
    }
  }

  lemma {:induction false} NoWriteNoBlob(start: State, trace: seq<Action>)
    requires Run(start, trace) && WriteFile !in trace && !start.d.blob.Whole?
    ensures !Exec(start, trace).d.blob.Whole?
    decreases |trace|
  {
    hide PolicyOf;
    if trace == [] {
    } else {
      NoWriteNoBlob(start, trace[..|trace| - 1]);
      assert trace[|trace| - 1] in trace;
    }
  }

  /** The object is made before the key is persisted, and the file is opened after that. */
  lemma SealOrder(d: Persistent, p: Params, trace: seq<Action>, i: nat, j: nat)
    requires Run(Start(d, p), trace) && i < j < |trace|
    ensures trace[i] == Persist ==> !trace[j].NewObject? && trace[j] != Persist
    ensures trace[j] == Persist ==> trace[i] != CreateFile
  {
    hide PolicyOf;
    var start := Start(d, p);
    StepAt(start, trace, i);
    StepAt(start, trace, j);
    PersistedStays(start, trace, i + 1, j);
  }

  lemma {:induction false} PersistedStays(start: State, trace: seq<Action>, i: nat, j: nat)
    requires Run(start, trace) && i <= j <= |trace|
    ensures Exec(start, trace[..i]).b.seal.persisted ==> Exec(start, trace[..j]).b.seal.persisted
    decreases j
  {
    hide PolicyOf;
    if i == j {
    } else {
      PersistedStays(start, trace, i, j - 1);
      StepAt(start, trace, j - 1);
    }
  }

  // ----- When the blob file is complete -----

  /** An object was created in this run. */
  ghost predicate Created(trace: seq<Action>) {
    exists i :: 0 <= i < |trace| && trace[i].NewObject?
  }

  /** What the actions of a boot so far say about its blob file and its object. */
  ghost predicate Matches(s: State, written: bool, created: bool) {
    && (if s.b.seal.wrote then s.d.blob.Whole? <==> written else !written)
    && (s.b.seal.product.Some? <==> created)
    && (written ==> created)
  }

  lemma StepMatches(s: State, a: Action, written: bool, created: bool)
    requires Enabled(s, a) && Matches(s, written, created)
    ensures Matches(Apply(s, a), written || a == WriteFile, created || a.NewObject?)
  {
    hide PolicyOf;
  }

  /**
   A blob file written in this boot is complete exactly when the writes took effect, which
   takes an object; and there is an object exactly when one was created.
   */
  lemma {:induction false} WholeIffWritten(d: Persistent, p: Params, trace: seq<Action>)
    requires Run(Start(d, p), trace)
    ensures Matches(Exec(Start(d, p), trace), WriteFile in trace, Created(trace))
    decreases |trace|
  {
    hide Matches, Enabled, Apply;
    if trace == [] {
      NothingWritten(d, p);
    } else {
      var init, a := trace[..|trace| - 1], trace[|trace| - 1];
      WholeIffWritten(d, p, init);
      StepMatches(Exec(Start(d, p), init), a, WriteFile in init, Created(init));
      CreatedStep(init, a);
      assert trace == init + [a];
    }
  }

  lemma NothingWritten(d: Persistent, p: Params)
    ensures Matches(Start(d, p), false, false)
  {
  }

  lemma CreatedStep(init: seq<Action>, a: Action)
    ensures Created(init + [a]) <==> Created(init) || a.NewObject?
  {
    var trace := init + [a];
    assert trace[|init|] == a;
    if i :| 0 <= i < |init| && init[i].NewObject? { assert trace[i].NewObject?; }
  }

  /** A device as it comes: no blob file, no persisted key, an unknown volume. */
  const FRESH := Persistent(Absent, None, Foreign(None))

  /** The run in which `Esys_Create` fails unnoticed: the key is persisted and the file is torn. */
  function TornTrace(key: nat): (trace: seq<Action>) {
    [FoundNone, NewPrimary(key), Persist, CreateFile]
  }

  lemma SealsWithoutObject(p: Params, key: nat)
    ensures Run(Start(FRESH, p), TornTrace(key)) && !Created(TornTrace(key))
    ensures var s := Exec(Start(FRESH, p), TornTrace(key));
            s.d == Persistent(Torn, Some(key), Foreign(None)) && s.b.seal.persisted && s.b.seal.wrote
  {
    hide PolicyOf;
    var start := Start(FRESH, p);
    var t1 := [] + [FoundNone];
    var t2 := t1 + [NewPrimary(key)];
    var t3 := t2 + [Persist];
    RunSnoc(start, [], FoundNone);
    RunSnoc(start, t1, NewPrimary(key));
    RunSnoc(start, t2, Persist);
    RunSnoc(start, t3, CreateFile);
    assert t3 + [CreateFile] == TornTrace(key);
  }

  /** Such a device stays as it is: no boot completes the file, gets a secret or formats anything. */
  lemma TornForever(d: Persistent, rs: seq<BootRun>, i: nat)
    requires Inv(d) && d.blob.Torn? && History(d, rs) && i < |rs|
    ensures Outcome(d, rs) == d
    ensures var s := Final(d, rs[i]); s.d == d && s.b.unseal == Unsealing(None, None, None) && !s.b.storage.isOpen
  {
    SetUpForever(d, rs);
    RunsAlike(d, rs, i);
    RunKeepsInv(d, rs[i].params, rs[i].trace);
    SetUpIsFrozen(d, rs[i].params, rs[i].trace);
  }

  /** On a device that is set up, every boot of a history starts from the same state. */
  lemma {:induction false} RunsAlike(d: Persistent, rs: seq<BootRun>, i: nat)
    requires Inv(d) && SetUp(d) && History(d, rs) && i < |rs|
    ensures Legal(d, rs[i])
    decreases |rs|
  {
    if i == 0 {
    } else {
      SetUpIsFrozen(d, rs[0].params, rs[0].trace);
      RunsAlike(d, rs[1..], i - 1);
    }
  }

  /** Other register values, or another selection, never give the key away, and never open the volume. */
  lemma OtherPolicyNeverOpens(d: Persistent, p: Params, trace: seq<Action>)
    requires Inv(d) && d.blob.Whole? && Run(Start(d, p), trace)
    requires d.blob.blob.policy != PolicyOf(p)
    ensures var s := Exec(Start(d, p), trace);
            s.b.unseal.secret.None? && s.b.unseal.keyring.None? && !s.b.storage.isOpen
  {
    RunKeepsInv(d, p, trace);
    SetUpIsFrozen(d, p, trace);
    ParamsStay(Start(d, p), trace);
  }

  lemma {:induction false} ParamsStay(start: State, trace: seq<Action>)
    requires Run(start, trace)
    ensures Exec(start, trace).b.params == start.b.params
    decreases |trace|
  {
    hide Apply, Enabled;
    if trace == [] {
    } else {
      var before := Exec(start, trace[..|trace| - 1]);
      ParamsStay(start, trace[..|trace| - 1]);
      if Enabled(before, trace[|trace| - 1]) { StepParams(before, trace[|trace| - 1]); }
    }
  }

  lemma StepParams(s: State, a: Action)
    requires Enabled(s, a)
    ensures Apply(s, a).b.params == s.b.params
  {
    hide PolicyOf;
  }

  /** The policy is the same exactly when the same registers are selected and they hold the same values. */
  lemma SamePolicy(p: Params, q: Params)
    ensures PolicyOf(p) == PolicyOf(q) <==>
            SelectedSet(p.sel) == SelectedSet(q.sel) && forall k :: k in SelectedSet(p.sel) ==> p.pcrs(k) == q.pcrs(k)
  {
    var a, b := PolicyOf(p), PolicyOf(q);
    assert a.Keys == SelectedSet(p.sel) && b.Keys == SelectedSet(q.sel);
    if a == b {
      forall k | k in SelectedSet(p.sel) ensures p.pcrs(k) == q.pcrs(k) {
        assert a[k] == p.pcrs(k) && b[k] == q.pcrs(k);
      }
    }
  }

  // ----- Many boots -----

  /**
   One boot: register values, selection, what happened until it ended or power was
   lost, and whether the power cut took the blob file, or part of it, with it.
   */
  datatype BootRun = BootRun(params: Params, trace: seq<Action>, lost: Option<BlobFile>)

  ghost function Final(d: Persistent, r: BootRun): (s: State) {
    Exec(Start(d, r.params), r.trace)
  }

  /** Only a file written in the same boot and not yet unmounted can be lost. */
  ghost predicate Legal(d: Persistent, r: BootRun) {
    && Run(Start(d, r.params), r.trace)
    && (r.lost.Some? ==> !r.lost.value.Whole? && Final(d, r).b.seal.wrote && !Final(d, r).b.seal.synced)
  }

  ghost function After(d: Persistent, r: BootRun): (d': Persistent) {
    if r.lost.Some? then Final(d, r).d.(blob := r.lost.value) else Final(d, r).d
  }

  ghost predicate History(d: Persistent, rs: seq<BootRun>)
    decreases |rs|
  {
    rs == [] || (Legal(d, rs[0]) && History(After(d, rs[0]), rs[1..]))
  }

  ghost function Outcome(d: Persistent, rs: seq<BootRun>): (d': Persistent)
    decreases |rs|
  {
    if rs == [] then d else Outcome(After(d, rs[0]), rs[1..])
  }

  lemma BootKeepsInv(d: Persistent, r: BootRun)
    requires Inv(d) && Legal(d, r)
    ensures Inv(After(d, r))
  {
    RunKeepsInv(d, r.params, r.trace);
  }

  /** The invariant holds after any number of boots, whatever fails and whenever power is lost. */
  lemma {:induction false} HistoryKeepsInv(d: Persistent, rs: seq<BootRun>)
    requires Inv(d) && History(d, rs)
    ensures Inv(Outcome(d, rs))
    decreases |rs|
  {
    if rs == [] {
    } else {
      BootKeepsInv(d, rs[0]);
      HistoryKeepsInv(After(d, rs[0]), rs[1..]);
    }
  }

  /** From the boot that first persisted a key on, nothing persistent ever changes again. */
  lemma {:induction false} SetUpForever(d: Persistent, rs: seq<BootRun>)
    requires Inv(d) && SetUp(d) && History(d, rs)
    ensures Outcome(d, rs) == d
    ensures forall i, j :: 0 <= i < |rs| && 0 <= j < |rs[i].trace| ==> !IsFormat(rs[i].trace[j])
    decreases |rs|
  {
    if rs == [] {
    } else {
      SetUpIsFrozen(d, rs[0].params, rs[0].trace);
      forall j | 0 <= j < |rs[0].trace| ensures !IsFormat(rs[0].trace[j]) {
        if IsFormat(rs[0].trace[j]) { FormatComesAfterBlob(d, rs[0].params, rs[0].trace, j); }
      }
      SetUpForever(d, rs[1..]);
    }
  }

  /** Whatever the history, at most one boot ever formats anything. */
  lemma {:induction false} FormatsInOneBoot(d: Persistent, rs: seq<BootRun>, i: nat, j: nat)
    requires Inv(d) && History(d, rs) && i < |rs| && j < |rs[i].trace| && IsFormat(rs[i].trace[j])
    ensures forall k, l :: 0 <= k < |rs| && k != i && 0 <= l < |rs[k].trace| ==> !IsFormat(rs[k].trace[l])
    decreases |rs|
  {
    hide Inv, Legal, After, IsFormat;
    BootKeepsInv(d, rs[0]);
    var d', rest := After(d, rs[0]), rs[1..];
    assert forall k :: 0 < k < |rs| ==> rs[k] == rest[k - 1];
    if i == 0 {
      FormatSetsUp(d, rs[0], j);
      SetUpForever(d', rest);
    } else {
      FormatsInOneBoot(d', rest, i - 1, j);
      forall l | 0 <= l < |rs[0].trace| ensures !IsFormat(rs[0].trace[l]) {
        if IsFormat(rs[0].trace[l]) {
          FormatSetsUp(d, rs[0], l);
          SetUpForever(d', rest);
        }
      }
    }
  }

  lemma FormatSetsUp(d: Persistent, r: BootRun, j: nat)
    requires Inv(d) && Legal(d, r) && j < |r.trace| && IsFormat(r.trace[j])
    ensures SetUp(After(d, r))
  {
    var start := Start(d, r.params);
    FormatComesAfterBlob(d, r.params, r.trace, j);
    RunPrefix(start, r.trace, j);
    RunKeepsInv(d, r.params, r.trace[..j]);
    SlotStays(start, r.trace, j);
  }

  lemma {:induction false} SlotStays(start: State, trace: seq<Action>, j: nat)
    requires Run(start, trace) && j <= |trace| && Exec(start, trace[..j]).d.slot.Some?
    ensures Exec(start, trace).d.slot.Some?
    decreases |trace|
  {
    hide PolicyOf;
    if j < |trace| {
      assert trace[..|trace| - 1][..j] == trace[..j];
      SlotStays(start, trace[..|trace| - 1], j);
    } else {
      assert trace[..j] == trace;
    }
  }

  /**
   luksFormat gives the volume the secret of the blob as its passphrase exactly when
   the key could be read back from the keyring; a failed read is not noticed.
   */
  lemma FormattedWithSecret(d: Persistent, p: Params, trace: seq<Action>, i: nat)
    requires Inv(d) && Run(Start(d, p), trace) && i < |trace| && trace[i].Format?
    ensures var s := Exec(Start(d, p), trace[..i + 1]);
            && s.d.blob.Whole? && s.d.volume.Luks?
            && (s.d.volume.passphrase == Key(s.d.blob.blob.secret) <==> trace[i].keyRead)
  {
    hide PolicyOf;
    StepAt(Start(d, p), trace, i);
    RunKeepsInv(d, p, trace[..i]);
  }

  /** A first boot up to luksFormat, with the key read back or not. */
  function FormatTrace(key: nat, secret: seq<Byte>, keyRead: bool): (trace: seq<Action>) {
    [FoundNone, NewPrimary(key), NewObject(secret), Persist, CreateFile, WriteFile, LoadObject, Unseal, AddKey,
     Format(keyRead)]
  }

  lemma FirstBootFormats(p: Params, key: nat, secret: seq<Byte>, keyRead: bool)
    requires |secret| == PASSPHRASE_SIZE
    ensures Run(Start(FRESH, p), FormatTrace(key, secret, keyRead))
    ensures var s := Exec(Start(FRESH, p), FormatTrace(key, secret, keyRead));
            && s.d == Persistent(Whole(Blob(secret, key, PolicyOf(p))), Some(key),
                                 Luks(if keyRead then Key(secret) else OverRead, false, false))
            && s.b.seal.wrote && !s.b.seal.synced
  {
    hide PolicyOf;
    var start := Start(FRESH, p);
    var t6 := [FoundNone, NewPrimary(key), NewObject(secret), Persist, CreateFile, WriteFile];
    var t7 := t6 + [LoadObject];
    var t8 := t7 + [Unseal];
    var t9 := t8 + [AddKey];
    FirstBootSeals(p, key, secret);
    RunSnoc(start, t6, LoadObject);
    RunSnoc(start, t7, Unseal);
    RunSnoc(start, t8, AddKey);
    RunSnoc(start, t9, Format(keyRead));
    assert t9 + [Format(keyRead)] == FormatTrace(key, secret, keyRead);
  }

  lemma FirstBootSeals(p: Params, key: nat, secret: seq<Byte>)
    requires |secret| == PASSPHRASE_SIZE
    ensures var t := [FoundNone, NewPrimary(key), NewObject(secret), Persist, CreateFile, WriteFile];
            var blob := Blob(secret, key, PolicyOf(p));
            && Run(Start(FRESH, p), t)
            && Exec(Start(FRESH, p), t) ==
               State(Persistent(Whole(blob), Some(key), Foreign(None)),
                     Boot(p, NoBlob, Sealing(Some(key), Some(blob), true, true, false), Unsealing(None, None, None),
                          Storage(false, false, false), {}))
  {
    hide PolicyOf;
    var start := Start(FRESH, p);
    var t1 := [] + [FoundNone];
    var t2 := t1 + [NewPrimary(key)];
    var t3 := t2 + [NewObject(secret)];
    var t4 := t3 + [Persist];
    var t5 := t4 + [CreateFile];
    RunSnoc(start, [], FoundNone);
    RunSnoc(start, t1, NewPrimary(key));
    RunSnoc(start, t2, NewObject(secret));
    RunSnoc(start, t3, Persist);
    RunSnoc(start, t4, CreateFile);
    RunSnoc(start, t5, WriteFile);
    assert t5 + [WriteFile] == [FoundNone, NewPrimary(key), NewObject(secret), Persist, CreateFile, WriteFile];
  }

  /** A first boot that formats the volume with something other than the sealed secret. */
  lemma FormatsWithOverRead(p: Params, key: nat, secret: seq<Byte>)
    requires |secret| == PASSPHRASE_SIZE
    ensures var t := FormatTrace(key, secret, false);
            && Run(Start(FRESH, p), t)
            && Exec(Start(FRESH, p), t).d.volume == Luks(OverRead, false, false)
            && Exec(Start(FRESH, p), t).d.blob == Whole(Blob(secret, key, PolicyOf(p)))
  {
    FirstBootFormats(p, key, secret, false);
  }

  /** A volume touched by this code comes with a complete blob. */
  ghost predicate Agreement(d: Persistent) {
    Inv(d) && (!d.volume.Foreign? ==> d.blob.Whole?)
  }

  /** luksFormat was run, whether or not it went through. */
  predicate IsLuksFormat(a: Action) {
    a.Format? || a.FormatFailed?
  }

  ghost predicate Formats(trace: seq<Action>) {
    exists i :: 0 <= i < |trace| && IsLuksFormat(trace[i])
  }

  /** The boot ran luksFormat, and the power cut that ended it took the blob file. */
  ghost predicate LosesKey(r: BootRun) {
    r.lost.Some? && Formats(r.trace)
  }

  /** An untouched volume is touched exactly by luksFormat. */
  lemma {:induction false} TouchedIffFormats(start: State, trace: seq<Action>)
    requires Run(start, trace) && start.d.volume.Foreign?
    ensures !Exec(start, trace).d.volume.Foreign? <==> Formats(trace)
    decreases |trace|
  {
    hide Enabled, Apply, IsLuksFormat;
    if trace == [] {
    } else {
      var init, a := trace[..|trace| - 1], trace[|trace| - 1];
      TouchedIffFormats(start, init);
      StepTouches(Exec(start, init), a);
      FormatsStep(init, a);
      assert trace == init + [a];
    }
  }

  lemma StepTouches(s: State, a: Action)
    requires Enabled(s, a)
    ensures !Apply(s, a).d.volume.Foreign? <==> !s.d.volume.Foreign? || IsLuksFormat(a)
  {
    hide PolicyOf;
  }

  lemma FormatsStep(init: seq<Action>, a: Action)
    ensures Formats(init + [a]) <==> Formats(init) || IsLuksFormat(a)
  {
    hide IsLuksFormat;
    var trace := init + [a];
    assert trace[|init|] == a;
    if i :| 0 <= i < |init| && IsLuksFormat(init[i]) { assert IsLuksFormat(trace[i]); }
  }

  /** One boot keeps the agreement exactly unless it loses the key; the device is then set up without it. */
  lemma BootKeepsAgreement(d: Persistent, r: BootRun)
    requires Agreement(d) && Legal(d, r)
    ensures Inv(After(d, r)) && (Agreement(After(d, r)) <==> !LosesKey(r))
    ensures LosesKey(r) ==> SetUp(After(d, r))
  {
    hide PolicyOf;
    RunKeepsInv(d, r.params, r.trace);
    if r.lost.Some? { TouchedIffFormats(Start(d, r.params), r.trace); }
  }

  /**
   After any history: the parent of the blob is in the slot and a volume touched by this
   code comes with the complete blob of its secret, exactly unless some boot ran
   luksFormat and then lost the blob file.
   */
  lemma {:induction false} HistoryKeepsAgreement(d: Persistent, rs: seq<BootRun>)
    requires Agreement(d) && History(d, rs)
    ensures Agreement(Outcome(d, rs)) <==> forall i :: 0 <= i < |rs| ==> !LosesKey(rs[i])
    decreases |rs|
  {
    hide Agreement, Inv, Legal, After, LosesKey, SetUp;
    if rs == [] {
    } else {
      var d', rest := After(d, rs[0]), rs[1..];
      BootKeepsAgreement(d, rs[0]);
      if LosesKey(rs[0]) {
        SetUpForever(d', rest);
      } else {
        HistoryKeepsAgreement(d', rest);
        assert forall i :: 0 < i < |rs| ==> rs[i] == rest[i - 1];
        assert forall i :: 0 <= i < |rest| ==> rest[i] == rs[i + 1];
      }
    }
  }

  /** Such a history: the volume has a passphrase that is nowhere any more. */
  lemma KeyCanBeLost(p: Params, key: nat, secret: seq<Byte>)
    requires |secret| == PASSPHRASE_SIZE
    ensures var r := BootRun(p, FormatTrace(key, secret, true), Some(Absent));
            && Agreement(FRESH) && History(FRESH, [r]) && LosesKey(r)
            && Outcome(FRESH, [r]) == Persistent(Absent, Some(key), Luks(Key(secret), false, false))
  {
    hide PolicyOf;
    FirstBootFormats(p, key, secret, true);
    var r := BootRun(p, FormatTrace(key, secret, true), Some(Absent));
    assert IsLuksFormat(r.trace[9]);
    hide Exec, Run;
    assert [r][1..] == [];
  }
}
