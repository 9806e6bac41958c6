/**
 The code of the seal/unseal protocol (src/tpm.c:118-546 and 726-766,
 src/securememory.c:63-234), branch by branch. Every external call is a method of
 `Platform`, which may fail at will unless the platform is fault free; a call with an
 effect is an action of `SealProtocol` and can only be made when that is enabled.
 */
module Tpm {
  import opened Wrappers
  import opened Numbers
  import opened SecureMemory
  import opened SealProtocol

  datatype TpmState = TpmFailure | TpmPolicyFailure | Unsealed | Sealed

  datatype BlobState = BlobIsEmpty | BlobExists | BlobNotFound

  /** The state is the one that the actions so far lead to, and the invariants hold of it. */
  ghost predicate Sound(start: State, trace: seq<Action>, s: State) {
    && Run(start, trace) && s == Exec(start, trace)
    && Inv(start.d) && BootInv(start.d, s)
    && start == Start(start.d, start.b.params) && s.b.params == start.b.params
  }

  lemma SoundStep(start: State, trace: seq<Action>, s: State, a: Action)
    requires Sound(start, trace, s) && Enabled(s, a)
    ensures Sound(start, trace + [a], Apply(s, a))
  {
    StepKeepsInv(start.d, s, a);
    StepParams(s, a);
    RunSnoc(start, trace, a);
  }

  // ----- Key buffers -----

  /** The actions that are handed the secret in a key buffer. */
  predicate TakesSecret(a: Action) {
    a.NewObject? || a.AddKey? || a.Format? || a.FormatFailed?
  }

  /** All of them in a run, in order. */
  ghost function SecretUses(trace: seq<Action>): (uses: seq<Action>) {
    if trace == [] then []
    else
      var a := trace[|trace| - 1];
      SecretUses(trace[..|trace| - 1]) + if TakesSecret(a) then [a] else []
  }

  lemma SecretUsesStep(trace: seq<Action>, a: Action)
    ensures SecretUses(trace + [a]) == SecretUses(trace) + if TakesSecret(a) then [a] else []
  {
    var all := trace + [a];
    assert all[..|all| - 1] == trace;
  }

  /**
   A key buffer when it was released, whether its contents had been handed to any call, and
   the actions that came of it.
   */
  datatype Freed = Freed(bytes: seq<Byte>, handed: bool, uses: seq<Action>)

  /** A buffer whose contents were handed to a call was all zero; without faults each one was. */
  ghost predicate Cleared(buffers: seq<Freed>, faulty: bool) {
    forall i :: 0 <= i < |buffers| ==>
      && (buffers[i].uses != [] ==> buffers[i].handed)
      && (buffers[i].handed || !faulty ==> Zero(buffers[i].bytes))
  }

  ghost function UsesOf(buffers: seq<Freed>): (uses: seq<Action>) {
    if buffers == [] then [] else UsesOf(buffers[..|buffers| - 1]) + buffers[|buffers| - 1].uses
  }

  /** Every use of a secret in the run is accounted for, by a released buffer or the one at hand. */
  ghost predicate Accounted(trace: seq<Action>, released: seq<Freed>, uses: seq<Action>) {
    SecretUses(trace) == UsesOf(released) + uses
  }

  /** Releasing a buffer that is cleared, if it has to be, keeps the account. */
  lemma ReleaseKeeps(trace: seq<Action>, released: seq<Freed>, f: Freed, faulty: bool)
    requires Accounted(trace, released, f.uses) && Cleared(released, faulty)
    requires (f.uses != [] ==> f.handed) && (f.handed || !faulty ==> Zero(f.bytes))
    ensures Accounted(trace, released + [f], []) && Cleared(released + [f], faulty)
  {
    hide Zero, SecretUses;
    var all := released + [f];
    assert all[..|all| - 1] == released;
    assert UsesOf(all) == UsesOf(released) + f.uses;
    assert UsesOf(all) + [] == UsesOf(all);
  }

  /** What the buffer must hold for an action to be handed the right secret. */
  predicate Holds(key: seq<Byte>, s: State, a: Action) {
    match a
    case NewObject(secret) => key == secret
    case AddKey => s.b.unseal.secret == Some(key)
    case Format(keyRead) => keyRead ==> s.b.unseal.keyring == Some(key)
    case _ => true
  }

  /** All handles are below `bound`. */
  ghost predicate Below(handles: set<nat>, bound: nat) {
    forall h :: h in handles ==> h < bound
  }

  class Platform {
    /** Where the boot began, what happened since, and where it is now. */
    const start: State
    var trace: seq<Action>
    var s: State
    /** A platform without faults refuses only what cannot be done. */
    const faulty: bool
    /** The key buffers that were released, in order. */
    var released: seq<Freed>
    /** The key buffer at hand, whether its contents were handed to a call, and what came of that. */
    var key: array?<Byte>
    var handed: bool
    var uses: seq<Action>
    /** How often `Esys_FlushContext` failed. */
    var flushFailures: nat
    var nextHandle: nat

    ghost predicate Valid()
      reads this
    {
      && Sound(start, trace, s)
      && Below(s.b.live, nextHandle)
      && Accounted(trace, released, uses) && Cleared(released, faulty)
      && (uses != [] ==> handed) && (key == null ==> !handed)
    }

    constructor (d: Persistent, params: Params, faulty: bool)
      requires Inv(d)
      ensures Valid() && start == s == Start(d, params) && trace == [] && released == [] && key == null
      ensures this.faulty == faulty
    {
      start := Start(d, params);
      s := Start(d, params);
      trace, released, key, handed, uses, flushFailures, nextHandle := [], [], null, false, [], 0, 0;
      this.faulty := faulty;
      new;
      RunKeepsInv(d, params, []);
    }

    // ----- External calls -----

    /** An effect takes place, without the secret of a key buffer. */
    method Do(a: Action)
      requires Valid() && Enabled(s, a) && !TakesSecret(a) && (a.NewHandle? ==> a.h < nextHandle)
      modifies this`trace, this`s
      ensures Valid() && s == Apply(old(s), a) && trace == old(trace) + [a]
    {
      SoundStep(start, trace, s, a);
      SecretUsesStep(trace, a);
      hide Sound;
      s := Apply(s, a);
      trace := trace + [a];
    }

    /** An effect that is handed the contents of the key buffer. */
    method HandOut(a: Action)
      requires Valid() && Enabled(s, a) && TakesSecret(a) && key != null && handed && Holds(key[..], s, a)
      modifies this`trace, this`s, this`uses
      ensures Valid() && s == Apply(old(s), a) && trace == old(trace) + [a] && uses == old(uses) + [a]
    {
      SoundStep(start, trace, s, a);
      SecretUsesStep(trace, a);
      hide Sound, Enabled, Apply, TakesSecret, Cleared, SecretUses, UsesOf;
      HandOutKeeps(s, a);
      s := Apply(s, a);
      trace := trace + [a];
      uses := uses + [a];
      assert UsesOf(released) + old(uses) + [a] == UsesOf(released) + uses;
    }

    static lemma HandOutKeeps(s: State, a: Action)
      requires Enabled(s, a) && TakesSecret(a)
      ensures Apply(s, a).b.live == s.b.live
    {
      hide PolicyOf;
    }

    /** A call without a lasting effect: may fail on a faulty platform. */
    method Try() returns (ok: bool)
      ensures !faulty ==> ok
    {
      ok := *;
      ok := ok || !faulty;
    }

    /** A call with the effect `a`, if that is possible; it may take effect and still report failure. */
    method TryDo(a: Action, possible: bool) returns (ok: bool)
      requires Valid() && (possible ==> Enabled(s, a)) && !a.NewHandle? && !TakesSecret(a)
      modifies this`trace, this`s
      ensures Valid()
      ensures ok ==> possible
      ensures (s == old(s) && !ok && trace == old(trace))
              || (possible && s == Apply(old(s), a) && trace == old(trace) + [a])
      ensures !faulty ==> ok == possible
    {
      hide Sound, Apply, Enabled;
      ok := false;
      var done := Try();
      if done && possible {
        Do(a);
        ok := Try();
      }
    }

    /** The same for a call that is handed the contents of the key buffer, whatever comes of it. */
    method TryHandOut(a: Action) returns (ok: bool)
      requires Valid() && Enabled(s, a) && TakesSecret(a) && key != null && Holds(key[..], s, a)
      modifies this`trace, this`s, this`handed, this`uses
      ensures Valid() && handed
      ensures (s == old(s) && !ok && trace == old(trace) && uses == old(uses))
              || (s == Apply(old(s), a) && trace == old(trace) + [a] && uses == old(uses) + [a])
      ensures !faulty ==> ok
    {
      hide Sound, Apply, Enabled;
      ok := false;
      handed := true;
      var done := Try();
      if done {
        HandOut(a);
        ok := Try();
      }
    }

    /** A new session or transient object. */
    method NewLive() returns (h: nat)
      requires Valid()
      modifies this`trace, this`s, this`nextHandle
      ensures Valid() && h == old(nextHandle) && h !in old(s.b.live)
      ensures s == old(s).(b := old(s.b).(live := old(s.b.live) + {h}))
    {
      hide Sound, PolicyOf, Cleared, Accounted;
      h := nextHandle;
      nextHandle := nextHandle + 1;
      Do(NewHandle(h));
    }

    /** `Esys_FlushContext`; flushing no handle, or one that is not live, does nothing. */
    method FlushContext(h: Option<nat>)
      requires Valid()
      modifies this`trace, this`s, this`flushFailures
      ensures Valid() && s == old(s).(b := old(s.b).(live := s.b.live))
      ensures s.b.live == if h.Some? && flushFailures == old(flushFailures) then old(s.b.live) - {h.value}
                          else old(s.b.live)
      ensures flushFailures == old(flushFailures) || (faulty && flushFailures == old(flushFailures) + 1)
    {
      hide Sound, PolicyOf, Cleared, Accounted;
      if h.Some? {
        var ok := Try();
        if !ok { flushFailures := flushFailures + 1; }
        else if h.value in s.b.live { Do(Flush(h.value)); }
      }
    }

    /** A key buffer is taken into use. */
    method Acquire(buf: array<Byte>)
      requires Valid() && key == null
      modifies this`key
      ensures Valid() && key == buf && !handed && uses == []
    {
      key := buf;
    }

    /** The key buffer is freed; it must be cleared if its contents were handed to any call. */
    method Release()
      requires Valid() && key != null && (handed || !faulty ==> Zero(key[..]))
      modifies this`released, this`key, this`handed, this`uses
      ensures Valid() && key == null && released == old(released) + [Freed(old(key[..]), old(handed), old(uses))]
    {
      hide Sound, PolicyOf, Below, Accounted, Cleared, Zero;
      var freed := Freed(key[..], handed, uses);
      ReleaseKeeps(trace, released, freed, faulty);
      released := released + [freed];
      key, handed, uses := null, false, [];
    }

    // ----- The blob partition -----

    /** `cominitTpmSetupBlob`. */
    method SetupBlob(devNodeBlob: string) returns (state: BlobState)
      requires Valid() && s.b.look.Unknown?
      modifies this`trace, this`s
      ensures Valid() && s.d == old(s.d)
      ensures match state
              case BlobIsEmpty => s.d.blob.Absent? && s.b == old(s.b).(look := NoBlob)
              case BlobExists => !s.d.blob.Absent? && s.b == old(s.b).(look := HasBlob)
              case BlobNotFound => s == old(s)
      ensures !faulty ==> (state.BlobNotFound? <==> devNodeBlob == "")
      ensures devNodeBlob == "" ==> state.BlobNotFound?
    {
      hide Sound, PolicyOf, Cleared, Below, Accounted;
      state := BlobNotFound;
      if devNodeBlob != "" {
        var made := Try();
        var mounted := Try();
        var answered := Try();
        if made && mounted && answered {
          if !s.d.blob.Absent? {
            Do(FoundBlob);
            state := BlobExists;
          } else {
            var dir := Try();
            if dir {
              Do(FoundNone);
              state := BlobIsEmpty;
            }
          }
        }
      }
    }

    /** `cominitTpmSaveBlob`: reports success once the file is open, whatever the writes do. */
    method SaveBlob() returns (ok: bool)
      requires Valid() && s.b.seal.persisted && !s.b.seal.wrote
      modifies this`trace, this`s
      ensures Valid() && s.d == old(s.d).(blob := s.d.blob)
      ensures s.b == old(s.b).(seal := old(s.b.seal).(wrote := s.b.seal.wrote, synced := s.b.seal.synced))
      ensures ok ==> s.b.seal.wrote && !s.d.blob.Absent?
      ensures !faulty ==> ok && (s.b.seal.product.Some? ==> s.d.blob == Whole(s.b.seal.product.value))
    {
      hide Sound, PolicyOf, Cleared, Below, Accounted;
      ok := TryDo(CreateFile, true);
      if ok && s.b.seal.product.Some? {
        var _ := TryDo(WriteFile, true);
      }
    }

    // ----- Sealing -----

    /** `cominitCryptoCreatePassphrase`: random bytes, or an error with anything in the buffer. */
    method CreatePassphrase(buf: array<Byte>) returns (ok: bool)
      modifies buf
      ensures !ok ==> faulty
    {
      var i := 0;
      while i < buf.Length {
        buf[i] := *;
        i := i + 1;
      }
      ok := Try();
    }

    /**
     `cominitSecurememoryEsysCreate`: the result stays successful when `Esys_Create` fails.
     An object can only come from a buffer that is cleared when it is released.
     */
    method EsysCreate() returns (ok: bool)
      requires Valid() && s.b.seal.primary.Some? && s.b.seal.product.None? && !s.b.seal.persisted && key == null
      modifies this`trace, this`s, this`released, this`key, this`handed, this`uses
      ensures Valid() && s.d == old(s.d) && key == null
      ensures s.b == old(s.b).(seal := old(s.b.seal).(product := s.b.seal.product))
      ensures !faulty ==> ok && s.b.seal.product.Some?
      ensures s.b.seal.product.Some? ==> ok && s.b.seal.product.value.policy == PolicyOf(s.b.params)
      ensures released == old(released) || exists f :: released == old(released) + [f]
      ensures ok || s.b.seal.product.Some? ==> old(released) < released && Zero(released[|released| - 1].bytes)
    {
      hide Sound, PolicyOf, Cleared, Below, Accounted;
      ok := Try();
      if !ok { return; }
      var keyBuffer := new Byte[PASSPHRASE_SIZE](_ => 0);
      Acquire(keyBuffer);
      ok := Try();
      if ok {
        ok := CreatePassphrase(keyBuffer);
        if ok {
          var _ := TryHandOut(NewObject(keyBuffer[..]));
          var _ := ZeroOut(keyBuffer, PASSPHRASE_SIZE);
        }
      }
      var _ := VerifyZero(keyBuffer, PASSPHRASE_SIZE);
      assert keyBuffer[..] == keyBuffer[..PASSPHRASE_SIZE];
      Release();
    }

    /**
     `cominitTpmSeal`: success means that the primary key was persisted, whether or not
     an object was created; if `Esys_CreatePrimary` fails, any handle may be flushed.
     */
    method Seal() returns (ok: bool)
      requires Valid() && s.b.look.NoBlob? && s.b.seal == Sealing(None, None, false, false, false) && key == null
      modifies this
      ensures Valid() && s.d == old(s.d).(slot := s.d.slot) && key == null
      ensures s.b == old(s.b).(seal := s.b.seal, live := s.b.live) && !s.b.seal.wrote
      ensures ok ==> s.b.seal.persisted && s.d.slot == s.b.seal.primary
      ensures s.b.seal.product.Some? <==> Created(trace)
      ensures flushFailures >= old(flushFailures)
      ensures flushFailures == old(flushFailures) ==> s.b.live <= old(s.b.live) && (ok ==> s.b.live == old(s.b.live))
      ensures !faulty ==> flushFailures == old(flushFailures) && s.b.live == old(s.b.live)
      ensures !faulty && old(s.d.slot.None?) ==>
                ok && s.b.seal.product.Some? && s.b.seal.product.value.policy == PolicyOf(s.b.params)
    {
      hide Sound, PolicyOf, Cleared, Below, Accounted, Created;
      ok := false;
      var sess: Option<nat> := *;
      var primaryHandle := None;
      var primary: nat := *;
      var created := TryDo(NewPrimary(primary), true);
      if created {
        var h := NewLive();
        primaryHandle := Some(h);
        ok, sess := SealInSession(sess);
      }
      FlushContext(sess);
      FlushContext(primaryHandle);
      ProductIffCreated();
    }

    /** The part of it after `Esys_CreatePrimary`; without a session the handle stays what it was. */
    method SealInSession(before: Option<nat>) returns (ok: bool, sess: Option<nat>)
      requires Valid() && s.b.look.NoBlob? && s.b.seal.primary.Some? && key == null
      requires s.b.seal == Sealing(s.b.seal.primary, None, false, false, false)
      modifies this`trace, this`s, this`released, this`key, this`handed, this`uses, this`nextHandle
      ensures Valid() && s.d == old(s.d).(slot := s.d.slot) && key == null
      ensures s.b == old(s.b).(seal := s.b.seal, live := s.b.live) && !s.b.seal.wrote
      ensures s.b.seal.primary == old(s.b.seal.primary)
      ensures (sess == before && !ok && faulty && s.b.live == old(s.b.live))
              || (sess.Some? && sess.value !in old(s.b.live) && s.b.live == old(s.b.live) + {sess.value})
      ensures ok ==> s.b.seal.persisted && s.d.slot == s.b.seal.primary
      ensures !faulty && old(s.d.slot.None?) ==>
                ok && s.b.seal.product.Some? && s.b.seal.product.value.policy == PolicyOf(s.b.params)
    {
      hide Sound, PolicyOf, Cleared, Below, Accounted;
      ok, sess := false, before;
      var started := Try();
      if started {
        var h := NewLive();
        sess := Some(h);
        var selected := Try();
        var digest := Try();
        if selected && digest {
          var _ := EsysCreate();
          ok := TryDo(Persist, s.d.slot.None?);
        }
      }
    }

    lemma ProductIffCreated()
      requires Valid()
      ensures s.b.seal.product.Some? <==> Created(trace)
      ensures s.b.seal.wrote ==> (s.d.blob.Whole? <==> WriteFile in trace)
      ensures WriteFile in trace ==> Created(trace)
    {
      WholeIffWritten(start.d, start.b.params, trace);
    }

    /** `cominitTpmSealBlob`: the file behind a success is complete exactly if its writes took effect. */
    method SealBlob() returns (state: TpmState)
      requires Valid() && s.b.look.NoBlob? && s.b.seal == Sealing(None, None, false, false, false) && key == null
      modifies this
      ensures Valid() && s.b == old(s.b).(seal := s.b.seal, live := s.b.live) && key == null
      ensures s.d.volume == old(s.d.volume)
      ensures flushFailures >= old(flushFailures)
      ensures flushFailures == old(flushFailures) ==> s.b.live <= old(s.b.live)
      ensures state == TpmFailure || (state == Sealed && s.b.seal.wrote && !s.d.blob.Absent?)
      ensures state == Sealed ==> (s.d.blob.Whole? <==> WriteFile in trace)
      ensures WriteFile in trace ==> Created(trace)
      ensures !faulty && old(s.d.slot.None?) ==>
                state == Sealed && s.d.blob.Whole? && s.d.blob.blob.policy == PolicyOf(s.b.params)
    {
      hide Sound, PolicyOf, Cleared, Below, Accounted, Created;
      state := TpmFailure;
      var ok := Seal();
      if ok {
        ok := SaveBlob();
        if ok { state := Sealed; }
      }
      ProductIffCreated();
    }

    // ----- Unsealing -----

    /** The policy of the loaded blob is the one of this boot. */
    ghost predicate PolicyMatches()
      reads this
    {
      s.d.blob.Whole? && s.d.blob.blob.policy == PolicyOf(s.b.params)
    }

    /**
     `cominitSecurememoryEsysUnseal`: the secret goes to the keyring only from a buffer that
     is cleared when it is released; one that could not be locked goes nowhere.
     */
    method EsysUnseal() returns (state: TpmState)
      requires Valid() && s.d.blob.Whole? && s.b.unseal.loaded == Some(s.d.blob.blob) && key == null
      modifies this`trace, this`s, this`released, this`key, this`handed, this`uses
      ensures Valid() && s.d == old(s.d) && key == null
      ensures released == old(released) || exists f :: released == old(released) + [f]
      ensures state == Unsealed || s.b.unseal.keyring != old(s.b.unseal.keyring) ==>
                old(released) < released && Zero(released[|released| - 1].bytes)
      ensures s.b == old(s.b).(unseal := s.b.unseal) && s.b.unseal.loaded == old(s.b.unseal.loaded)
      ensures state != Sealed
      ensures state == Unsealed ==> PolicyMatches() && s.b.unseal.keyring == Some(s.d.blob.blob.secret)
      ensures !faulty ==> state == if PolicyMatches() then Unsealed else TpmPolicyFailure
    {
      hide Sound, PolicyOf, Cleared, Below, Accounted;
      ghost var secret := s.d.blob.blob.secret;
      state := TpmFailure;
      var matches := s.b.unseal.loaded.value.policy == PolicyOf(s.b.params);
      var ok := TryDo(Unseal, matches);
      if !ok {
        var refused: bool := *;
        if refused || !faulty { state := TpmPolicyFailure; }
      } else {
        state := StoreSecret();
      }
    }

    /** The part of it after `Esys_Unseal`: lock the buffer, add the key, clear. */
    method StoreSecret() returns (state: TpmState)
      requires Valid() && s.b.unseal.secret.Some? && key == null
      modifies this`trace, this`s, this`released, this`key, this`handed, this`uses
      ensures Valid() && key == null
      ensures s == old(s) || s == Apply(old(s), AddKey)
      ensures exists f :: released == old(released) + [f]
      ensures state == Unsealed || s != old(s) ==> Zero(released[|released| - 1].bytes)
      ensures state == TpmFailure || (state == Unsealed && s == Apply(old(s), AddKey))
      ensures !faulty ==> state == Unsealed
    {
      hide Sound, PolicyOf, Cleared, Below, Accounted;
      state := TpmFailure;
      var data := s.b.unseal.secret.value;
      var keyBuffer := new Byte[|data|](i requires 0 <= i < |data| => data[i]);
      assert keyBuffer[..] == data;
      Acquire(keyBuffer);
      var locked := Try();
      if locked {
        var added := TryHandOut(AddKey);
        if added { state := Unsealed; }
        var _ := ZeroOut(keyBuffer, |data|);
      }
      var _ := VerifyZero(keyBuffer, |data|);
      assert keyBuffer[..] == keyBuffer[..|data|];
      Release();
    }

    /** `cominitTpmUnseal`: whatever happens, its session and its object are flushed again. */
    method UnsealObject() returns (state: TpmState)
      requires Valid() && s.d.blob.Whole? && s.d.slot.Some? && (s.b.seal.wrote || s.b.look.HasBlob?) && key == null
      modifies this
      ensures Valid() && s.d == old(s.d) && key == null
      ensures s.b == old(s.b).(unseal := s.b.unseal, live := s.b.live)
      ensures flushFailures >= old(flushFailures) && (!faulty ==> flushFailures == old(flushFailures))
      ensures flushFailures == old(flushFailures) ==> s.b.live == old(s.b.live)
      ensures state != Sealed
      ensures state == Unsealed ==> PolicyMatches() && s.b.unseal.keyring == Some(s.d.blob.blob.secret)
      ensures !faulty && s.d.slot == Some(s.d.blob.blob.parent) ==>
                state == if PolicyMatches() then Unsealed else TpmPolicyFailure
    {
      hide Sound, PolicyOf, Cleared, Below, Accounted;
      state := TpmFailure;
      var blobHandle, sess := None, None;
      var loaded := TryDo(LoadObject, s.d.slot == Some(s.d.blob.blob.parent));
      if loaded {
        var h := NewLive();
        blobHandle := Some(h);
        var started := Try();
        if started {
          h := NewLive();
          sess := Some(h);
          var selected := Try();
          if selected { state := EsysUnseal(); }
        }
      }
      FlushContext(sess);
      FlushContext(blobHandle);
    }

    /** `cominitTpmUnsealBlob`: needs the persisted key and a complete blob file. */
    method UnsealBlob() returns (state: TpmState)
      requires Valid() && (s.b.seal.wrote || s.b.look.HasBlob?) && key == null
      modifies this
      ensures Valid() && s.d == old(s.d) && key == null
      ensures s.b == old(s.b).(unseal := s.b.unseal, live := s.b.live)
      ensures flushFailures >= old(flushFailures)
      ensures flushFailures == old(flushFailures) ==> s.b.live == old(s.b.live)
      ensures state != Sealed
      ensures state == Unsealed ==> PolicyMatches() && s.b.unseal.keyring == Some(s.d.blob.blob.secret)
      ensures !faulty && s.d.blob.Whole? ==> state == if PolicyMatches() then Unsealed else TpmPolicyFailure
    {
      if s.d.blob.Whole? { BlobHasParent(); }
      hide Sound, PolicyOf, Cleared, Below, Accounted;
      state := TpmFailure;
      var handle := Try();
      if handle && s.d.slot.Some? {
        var read := Try();
        if read && s.d.blob.Whole? {
          state := UnsealObject();
        }
      }
    }

    lemma BlobHasParent()
      requires Valid() && s.d.blob.Whole?
      ensures s.d.slot == Some(s.d.blob.blob.parent) && |s.d.blob.blob.secret| == PASSPHRASE_SIZE
    {
    }

    // ----- The encrypted volume -----

    /**
     `cominitSecurememoryCreateLuksVolume`: the length read from the keyring is unsigned,
     so that a failed read counts as a huge key and luksFormat runs all the same.
     */
    method CreateLuksVolume() returns (ok: bool)
      requires Valid() && s.b.look.NoBlob? && s.b.unseal.keyring.Some? && s.b.storage == Storage(false, false, false)
      requires |s.b.unseal.keyring.value| == PASSPHRASE_SIZE && key == null
      modifies this`trace, this`s, this`released, this`key, this`handed, this`uses
      ensures Valid() && key == null
      ensures s.d == old(s.d).(volume := s.d.volume) && s.b == old(s.b).(storage := s.b.storage)
      ensures released == old(released) || exists f :: released == old(released) + [f] && Zero(f.bytes)
      ensures s.d.volume != old(s.d.volume) ==> old(released) < released
      ensures !s.b.storage.isOpen
      ensures ok ==> s.b.storage.formatted && s.d.volume.Luks? && !s.d.volume.token
      ensures !faulty ==> ok && s.d.volume == Luks(Key(s.b.unseal.keyring.value), false, false)
    {
      hide Sound, PolicyOf, Cleared, Below, Accounted;
      ok := Try();
      if !ok { return; }
      var keyBuffer := new Byte[PASSPHRASE_SIZE](_ => 0);
      Acquire(keyBuffer);
      ok := Try();
      if ok {
        ok := FormatWith(keyBuffer);
      }
      var _ := VerifyZero(keyBuffer, PASSPHRASE_SIZE);
      assert keyBuffer[..] == keyBuffer[..PASSPHRASE_SIZE];
      Release();
    }

    /** The part of it with the buffer locked: read the key, format, clear. */
    method FormatWith(keyBuffer: array<Byte>) returns (ok: bool)
      requires Valid() && s.b.look.NoBlob? && s.b.unseal.keyring.Some? && s.b.storage == Storage(false, false, false)
      requires |s.b.unseal.keyring.value| == PASSPHRASE_SIZE == keyBuffer.Length && key == keyBuffer
      modifies this`trace, this`s, this`handed, this`uses, keyBuffer
      ensures Valid() && s.d == old(s.d).(volume := s.d.volume) && s.b == old(s.b).(storage := s.b.storage)
      ensures Zero(keyBuffer[..]) && !s.b.storage.isOpen
      ensures ok ==> s.b.storage.formatted && s.d.volume.Luks? && !s.d.volume.token
      ensures !faulty ==> ok && s.d.volume == Luks(Key(s.b.unseal.keyring.value), false, false)
    {
      hide Sound, PolicyOf, Cleared, Below, Accounted;
      var secret := s.b.unseal.keyring.value;
      var read := Try();
      var len: int := if read then |secret| else -1;
      var keySize := if len < 0 then len + TWO64 else len;
      if keySize <= 0 {
        ok := false;
      } else {
        if read { CopyKey(keyBuffer, secret); }
        ok := TryHandOut(Format(read));
        if !ok && !s.b.storage.formatted {
          var broken: bool := *;
          if broken && faulty { HandOut(FormatFailed); }
        }
        var _ := ZeroOut(keyBuffer, PASSPHRASE_SIZE);
        assert keyBuffer[..] == keyBuffer[..PASSPHRASE_SIZE];
      }
    }

    static method CopyKey(buf: array<Byte>, key: seq<Byte>)
      requires |key| == buf.Length
      modifies buf
      ensures buf[..] == key
    {
      forall i | 0 <= i < buf.Length { buf[i] := key[i]; }
    }

    /** What `cryptsetup luksOpen` needs: a token, and the passphrase in the keyring. */
    ghost predicate CanOpen()
      reads this
    {
      s.b.unseal.keyring.Some? && Opens(s.d.volume, s.b.unseal.keyring.value)
    }

    /** `cominitCryptsetupOpenLuksVolume`. */
    method OpenLuksVolume() returns (ok: bool)
      requires Valid()
      modifies this`trace, this`s
      ensures Valid() && s.d == old(s.d)
      ensures s.b == old(s.b).(storage := old(s.b.storage).(isOpen := s.b.storage.isOpen))
      ensures ok ==> s.b.storage.isOpen && CanOpen()
      ensures !faulty ==> ok == CanOpen()
    {
      hide Sound, PolicyOf, Cleared, Below, Accounted;
      var possible := s.b.unseal.keyring.Some? && Opens(s.d.volume, s.b.unseal.keyring.value);
      ok := TryDo(Open, possible);
    }

    /** `cominitTpmSetupSecureStorage` on the first boot: format, add the token, open, make the file system. */
    method SetupFirst() returns (ok: bool)
      requires Valid() && s.b.look.NoBlob? && s.b.unseal.keyring.Some? && s.b.storage == Storage(false, false, false)
      requires |s.b.unseal.keyring.value| == PASSPHRASE_SIZE && key == null
      modifies this`trace, this`s, this`released, this`key, this`handed, this`uses
      ensures Valid() && key == null
      ensures s.d == old(s.d).(volume := s.d.volume) && s.b == old(s.b).(storage := s.b.storage)
      ensures ok ==> s.b.storage.isOpen && CanOpen() && s.d.volume.Luks? && s.d.volume.fs
      ensures !faulty ==> ok
    {
      hide Sound, PolicyOf, Cleared, Below, Accounted;
      ok := CreateLuksVolume();
      if ok {
        ok := TryDo(AddToken, true);
        if ok {
          ok := OpenLuksVolume();
          if ok {
            ok := TryDo(MakeFs, true);
          }
        }
      }
    }

    // ----- The whole -----

    /** `cominitTpmProtectData` of a boot that finds no blob file: seal, unseal, set up the volume. */
    method FirstBoot() returns (state: TpmState)
      requires Valid() && s.b.look.NoBlob? && s.b.seal == Sealing(None, None, false, false, false)
      requires s.b.unseal == Unsealing(None, None, None) && s.b.storage == Storage(false, false, false) && key == null
      modifies this
      ensures Valid() && state != Sealed && key == null
      ensures flushFailures >= old(flushFailures)
      ensures flushFailures == old(flushFailures) ==> s.b.live <= old(s.b.live)
      ensures state == Unsealed ==> s.b.storage.isOpen && CanOpen() && s.d.blob.Whole?
                                    && s.b.unseal.keyring == Some(s.d.blob.blob.secret)
      ensures !faulty && old(s.d.slot.None?) ==> state == Unsealed && s.d.volume.Luks? && s.d.volume.fs
    {
      state := SealBlob();
      if state == Sealed {
        state := UnsealBlob();
      }
      if state == Unsealed {
        BlobHasParent();
        hide Sound, PolicyOf, Cleared, Below, Accounted;
        var ok := SetupFirst();
        if !ok { state := TpmFailure; }
      }
    }

    /** `cominitTpmProtectData` of a boot that finds the blob file: unseal and open. */
    method LaterBoot() returns (state: TpmState)
      requires Valid() && s.b.look.HasBlob? && s.b.storage == Storage(false, false, false) && key == null
      modifies this
      ensures Valid() && state != Sealed && key == null && s.d == old(s.d) && s.b.params == old(s.b.params)
      ensures flushFailures >= old(flushFailures)
      ensures flushFailures == old(flushFailures) ==> s.b.live <= old(s.b.live)
      ensures state == Unsealed ==> s.b.storage.isOpen && CanOpen() && s.d.blob.Whole?
                                    && s.b.unseal.keyring == Some(s.d.blob.blob.secret)
      ensures !faulty && s.d.blob.Whole? && !PolicyMatches() ==> state == TpmPolicyFailure
      ensures !faulty && PolicyMatches() ==> s.b.unseal.keyring == Some(s.d.blob.blob.secret)
      ensures !faulty && PolicyMatches() && Opens(s.d.volume, s.d.blob.blob.secret) ==> state == Unsealed
    {
      state := UnsealBlob();
      if state == Unsealed {
        hide Sound, PolicyOf, Cleared, Below, Accounted;
        var ok := OpenLuksVolume();
        if !ok { state := TpmFailure; }
      }
    }

    /**
     `cominitTpmProtectData`. Every run of it is a run of the protocol; it never ends
     `Sealed`, and ends `Unsealed` only with the secret of the blob in the keyring and the
     volume open. Without faults the first boot sets the device up, and a later boot opens
     the volume if the policy matches and reports a policy failure if not. Every secret
     handed to `Esys_Create`, the keyring or luksFormat, whether or not the call worked, came
     from a buffer that was released all zero. Unless a flush failed, no session or object is
     left.
     */
    method ProtectData(devNodeBlob: string) returns (state: TpmState)
      requires Valid() && trace == [] && s == start == Start(s.d, s.b.params) && released == [] && key == null
      modifies this
      ensures Valid() && state != Sealed
      ensures key == null && SecretUses(trace) == UsesOf(released)
      ensures forall i :: 0 <= i < |trace| &&
                          (trace[i].NewObject? || trace[i].AddKey? || trace[i].Format? || trace[i].FormatFailed?) ==>
                exists j :: 0 <= j < |released| && trace[i] in released[j].uses
                            && forall b :: b in released[j].bytes ==> b == 0
      ensures !faulty ==> s.b.seal.synced && trace != [] && trace[|trace| - 1] == Unmount
      ensures flushFailures == old(flushFailures) ==> s.b.live == {}
      ensures forall i :: 0 <= i < |released| && (released[i].handed || !faulty) ==> Zero(released[i].bytes)
      ensures state == Unsealed ==> s.b.storage.isOpen && CanOpen() && s.d.blob.Whole?
                                    && s.b.unseal.keyring == Some(s.d.blob.blob.secret)
      ensures !faulty && devNodeBlob != "" && start.d.blob.Absent? && start.d.slot.None? ==>
                state == Unsealed && s.d.volume.Luks? && s.d.volume.fs
      ensures !faulty && devNodeBlob != "" && start.d.blob.Whole? ==>
                && (start.d.blob.blob.policy != PolicyOf(start.b.params) ==> state == TpmPolicyFailure)
                && (start.d.blob.blob.policy == PolicyOf(start.b.params) ==>
                      s.b.unseal.keyring == Some(start.d.blob.blob.secret))
                && (start.d.blob.blob.policy == PolicyOf(start.b.params) ==>
                      Opens(start.d.volume, start.d.blob.blob.secret) ==> state == Unsealed)
    {
      hide Sound, PolicyOf, Cleared, Below, Accounted;
      var blobState := SetupBlob(devNodeBlob);
      match blobState {
        case BlobIsEmpty => state := FirstBoot();
        case BlobExists => state := LaterBoot();
        case BlobNotFound => state := TpmFailure;
      }
      var _ := TryDo(Unmount, true);
      AllCleared();
    }

    lemma AllCleared()
      requires Valid() && key == null
      ensures SecretUses(trace) == UsesOf(released)
      ensures forall i :: 0 <= i < |trace| &&
                          (trace[i].NewObject? || trace[i].AddKey? || trace[i].Format? || trace[i].FormatFailed?) ==>
                exists j :: 0 <= j < |released| && trace[i] in released[j].uses
                            && forall b :: b in released[j].bytes ==> b == 0
      ensures forall i :: 0 <= i < |released| && (released[i].handed || !faulty) ==> Zero(released[i].bytes)
    {
      assert UsesOf(released) + [] == UsesOf(released);
      forall i | 0 <= i < |trace| &&
                 (trace[i].NewObject? || trace[i].AddKey? || trace[i].Format? || trace[i].FormatFailed?)
        ensures exists j :: 0 <= j < |released| && trace[i] in released[j].uses
                            && forall b :: b in released[j].bytes ==> b == 0
      {
        UseIsListed(trace, i);
        var j := UseIsReleased(released, trace[i]);
        assert released[j].uses != [];
      }
    }
  }

  /** Every action that takes a secret is among the uses. */
  lemma {:induction false} UseIsListed(trace: seq<Action>, i: nat)
    requires i < |trace| && TakesSecret(trace[i])
    ensures trace[i] in SecretUses(trace)
    decreases |trace|
  {
    if i == |trace| - 1 {
    } else {
      UseIsListed(trace[..|trace| - 1], i);
    }
  }

  /** Every use belongs to a buffer. */
  lemma {:induction false} UseIsReleased(buffers: seq<Freed>, a: Action) returns (j: nat)
    requires a in UsesOf(buffers)
    ensures j < |buffers| && a in buffers[j].uses
    decreases |buffers|
  {
    if a in buffers[|buffers| - 1].uses {
      j := |buffers| - 1;
    } else {
      j := UseIsReleased(buffers[..|buffers| - 1], a);
    }
  }
}
