/**
 The whole run of one boot (src/cominit.c:147-402 and 490-520, src/minsetup.c:130-155
 and 189-212): command line, bounded search for the root partition, signed metadata,
 secure storage, device mapper, mount and hand-over. Whatever the system answers is a
 parameter.
 */
module Boot {
  import opened Wrappers
  import opened CStrings
  import opened Numbers
  import opened Metadata
  import opened MetaParser
  import opened MetaRegion
  import opened CommandLine
  import opened Gpt
  import opened DmCtl
  import Guid
  import Pcr
  import SealProtocol
  import Tpm

  const WAIT_TRIES: nat := 10
  const ROOTFS_GUID := "b921b045-1df0-41c3-af44-4c6f280d3fae"
  const STORAGE_GUID := "CA7D7CCB-63ED-4C53-861C-1742536059CC"

  type Entries = seq<(string, DeviceIo)>

  /** What one attempt to find the root partition meets: `stat`, and the contents of /dev. */
  datatype Attempt = Attempt(statOk: bool, entries: Option<Entries>)

  /** What the search for the root partition and the loading of its metadata meet. */
  datatype Loading = Loading(
    sysfilesOk: bool, attempt: nat -> Attempt, partition: string -> Partition,
    verify: (string, string) -> bool, keyring: Keyring)

  /** What setting up the secure storage meets; `room` is the size of the selection bitmap. */
  datatype Storing = Storing(
    io: Io, entries: Option<Entries>, initOk: bool, extendOk: bool, extend: nat -> nat,
    pcrs: SealProtocol.Pcrs, room: nat, d: SealProtocol.Persistent, faulty: bool)

  /** What mounting and handing over meet. */
  datatype Mounting = Mounting(
    layout: Layout, dm: DmAnswers, mkdirOk: bool, mountOk: bool, switchOk: bool, initOk: bool, shellOk: bool)

  datatype Env = Env(pcrCount: nat, einval: bool, loading: Loading, storing: Storing, mounting: Mounting)

  /** Texts are C strings, and a device name leaves room for its path. */
  ghost predicate Names(entries: Option<Entries>) {
    entries.Some? ==>
      forall k :: 0 <= k < |entries.value| ==> |entries.value[k].0| <= NAME_MAX && NUL !in entries.value[k].0
  }

  ghost predicate Texts(argv: seq<string>) {
    forall i :: 0 <= i < |argv| ==> NUL !in argv[i]
  }

  datatype Mount = Mount(source: string, fsType: string, readOnly: bool)

  datatype Event =
    | Waited
    | Accepted(dev: string, framed: Framed)
    | Protected(state: Tpm.TpmState)
    | Dm(step: DmEvent)
    | Mounted(mount: Mount)
    | Switched

  /** How the program ends: help text, /sbin/init, rescue shell, or returning to the kernel. */
  datatype Exit = Info | Init | Shell | Panic

  /** What happened so far: each part of the program adds to it when its call returns. */
  class Log {
    var events: seq<Event>

    constructor ()
      ensures events == []
    {
      events := [];
    }

    method Record(e: Event)
      modifies this
      ensures events == old(events) + [e]
    {
      events := events + [e];
    }
  }

  function Lift(steps: seq<DmEvent>): (events: seq<Event>)
    ensures |events| == |steps| && forall i :: 0 <= i < |steps| ==> events[i] == Dm(steps[i])
  {
    seq(|steps|, i requires 0 <= i < |steps| => Dm(steps[i]))
  }

  function Waits(n: nat): (events: seq<Event>)
    ensures |events| == n && forall i :: 0 <= i < n ==> events[i] == Waited
  {
    seq(n, _ => Waited)
  }

  // ----- Finding the root partition -----

  /** The partition one attempt finds: the one on the command line, or the first of the root type. */
  function Candidate(root: string, a: Attempt): (r: Option<string>) {
    if root != "" then (if a.statOk then Some(root) else None)
    else if a.entries.None? then None
    else match Search(a.entries.value, ROOTFS_GUID, DEV_PATH_MAX)
         case None => None
         case Some((_, node)) => Some(node)
  }

  /**
   What one attempt finds, spelled out: the partition given, if `stat` works on it; without
   one, the node of the first directory entry that yields a partition of the root type.
   */
  lemma CandidateMeaning(root: string, a: Attempt, dev: string)
    ensures root != "" ==> (Candidate(root, a) == Some(dev) <==> a.statOk && dev == root)
    ensures root == "" && a.entries.None? ==> Candidate(root, a).None?
    ensures root == "" && a.entries.Some? ==>
              var guid, es := "b921b045-1df0-41c3-af44-4c6f280d3fae", a.entries.value;
              Candidate(root, a) == Some(dev) <==>
                exists k :: 0 <= k < |es| && OnDevice(es[k].0, es[k].1, guid, 256).Some?
                            && OnDevice(es[k].0, es[k].1, guid, 256).value.1 == dev
                            && forall j :: 0 <= j < k ==> OnDevice(es[j].0, es[j].1, guid, 256).None?
  {
    hide OnDevice;
    if root == "" && a.entries.Some? { FirstYield(a.entries.value, ROOTFS_GUID, DEV_PATH_MAX); }
    hide Search;
  }

  /** The search yields what the first entry that yields anything yields. */
  lemma FirstYield(es: Entries, guid: string, room: nat)
    ensures Search(es, guid, room).None? <==> forall k :: 0 <= k < |es| ==> OnDevice(es[k].0, es[k].1, guid, room).None?
    ensures forall k :: 0 <= k < |es| && OnDevice(es[k].0, es[k].1, guid, room).Some?
                        && (forall j :: 0 <= j < k ==> OnDevice(es[j].0, es[j].1, guid, room).None?) ==>
              Search(es, guid, room) == OnDevice(es[k].0, es[k].1, guid, room)
    ensures Search(es, guid, room).Some? ==>
              exists k :: 0 <= k < |es| && Search(es, guid, room) == OnDevice(es[k].0, es[k].1, guid, room)
                          && forall j :: 0 <= j < k ==> OnDevice(es[j].0, es[j].1, guid, room).None?
  {
    hide OnDevice;
    forall k | 0 <= k <= |es| && Fruitless(es, k, guid, room)
      ensures Search(es, guid, room) == Search(es[k..], guid, room)
    {
      SearchSkips(es, k, guid, room);
    }
    if forall k :: 0 <= k < |es| ==> OnDevice(es[k].0, es[k].1, guid, room).None? {
      assert Fruitless(es, |es|, guid, room) && es[|es|..] == [];
    } else {
      var k := LeastYield(es, guid, room);
      assert Fruitless(es, k, guid, room) && es[k..][0] == es[k];
    }
  }

  lemma LeastYield(es: Entries, guid: string, room: nat) returns (k: nat)
    requires exists i :: 0 <= i < |es| && OnDevice(es[i].0, es[i].1, guid, room).Some?
    ensures k < |es| && OnDevice(es[k].0, es[k].1, guid, room).Some?
    ensures forall j :: 0 <= j < k ==> OnDevice(es[j].0, es[j].1, guid, room).None?
  {
    hide OnDevice;
    k := 0;
    while OnDevice(es[k].0, es[k].1, guid, room).None?
      invariant k < |es| && forall j :: 0 <= j < k ==> OnDevice(es[j].0, es[j].1, guid, room).None?
      decreases |es| - k
    {
      k := k + 1;
    }
  }

  /** The disk description as it starts: no disk known. */
  const NO_DISK := Disk("", 0, 0, 0, 0)

  /** The disk behind a partition that was searched for; none for one that was given. */
  function CandidateDisk(root: string, a: Attempt): (d: Disk)
    requires Candidate(root, a).Some?
  {
    if root != "" then NO_DISK else Search(a.entries.value, ROOTFS_GUID, DEV_PATH_MAX).value.0
  }

  /** A partition that was searched for comes with the disk it is on; a given one with none. */
  lemma CandidateDiskMeaning(root: string, a: Attempt)
    requires Candidate(root, a).Some?
    ensures root != "" ==> CandidateDisk(root, a).name == ""
    ensures root == "" ==>
              var guid, es := "b921b045-1df0-41c3-af44-4c6f280d3fae", a.entries.value;
              exists k :: 0 <= k < |es|
                && OnDevice(es[k].0, es[k].1, guid, 256) == Some((CandidateDisk(root, a), Candidate(root, a).value))
                && forall j :: 0 <= j < k ==> OnDevice(es[j].0, es[j].1, guid, 256).None?
  {
    hide OnDevice;
    if root == "" { FirstYield(a.entries.value, ROOTFS_GUID, DEV_PATH_MAX); }
    hide Search;
  }

  /** `cominitDiscoverRootfs`. */
  method DiscoverRootfs(root: string, meta: RfsMeta, gptDisk: GptDisk, a: Attempt) returns (found: bool)
    requires Names(a.entries) && gptDisk.disk == NO_DISK
    modifies meta`devicePath, gptDisk
    ensures found <==> Candidate(root, a).Some?
    ensures found ==> meta.devicePath == Candidate(root, a).value && gptDisk.disk == CandidateDisk(root, a)
    ensures !found ==> gptDisk.disk == NO_DISK
  {
    hide Search, SearchBuffer;
    found := false;
    if root != "" {
      if a.statOk {
        meta.devicePath := root;
        found := true;
      }
    } else {
      var node, left := FindPartition(gptDisk, a.entries, ROOTFS_GUID, DEV_PATH_MAX, meta.devicePath);
      meta.devicePath := left;
      found := node.Some?;
    }
  }

  /** Attempt `n` is within the limit and the first that finds something. */
  ghost predicate FirstFound(root: string, attempt: nat -> Attempt, n: nat) {
    && n <= 10 && Candidate(root, attempt(n)).Some?
    && forall k: nat :: k < n ==> Candidate(root, attempt(k)).None?
  }

  /** The retry loop: gives up after eleven attempts, ten waits apart. */
  method AwaitRootfs(root: string, meta: RfsMeta, gptDisk: GptDisk, attempt: nat -> Attempt, log: Log)
    returns (found: bool, waits: nat)
    requires gptDisk.disk == NO_DISK && forall n :: Names(attempt(n).entries)
    modifies meta`devicePath, gptDisk, log
    ensures waits <= 10 && log.events == old(log.events) + Waits(waits)
    ensures found ==> && FirstFound(root, attempt, waits) && Candidate(root, attempt(waits)) == Some(meta.devicePath)
                      && gptDisk.disk == CandidateDisk(root, attempt(waits))
    ensures !found ==> waits == 10 && forall n: nat :: n <= 10 ==> Candidate(root, attempt(n)).None?
  {
    hide Candidate, CandidateDisk, Names;
    waits := 0;
    found := DiscoverRootfs(root, meta, gptDisk, attempt(0));
    while !found
      invariant waits <= WAIT_TRIES && log.events == old(log.events) + Waits(waits)
      invariant forall k: nat :: k < waits ==> Candidate(root, attempt(k)).None?
      invariant found <==> Candidate(root, attempt(waits)).Some?
      invariant found ==> Candidate(root, attempt(waits)) == Some(meta.devicePath)
      invariant gptDisk.disk == if found then CandidateDisk(root, attempt(waits)) else NO_DISK
      decreases WAIT_TRIES - waits, !found
    {
      if waits == WAIT_TRIES { return; }
      waits := waits + 1;
      log.Record(Waited);
      found := DiscoverRootfs(root, meta, gptDisk, attempt(waits));
    }
  }

  lemma {:induction false} DeviceIsText(argv: seq<string>, key: Key)
    requires Texts(argv)
    ensures NUL !in DeviceOf(argv, key)
  {
    if argv == [] {
    } else {
      DeviceIsText(argv[..|argv| - 1], key);
      assert NUL !in argv[|argv| - 1];
    }
  }

  lemma CandidateIsText(argv: seq<string>, a: Attempt)
    requires Texts(argv) && Names(a.entries)
    ensures var r := Candidate(DeviceOf(argv, ROOT), a); r.Some? ==> NUL !in r.value
  {
    DeviceIsText(argv, ROOT);
    if a.entries.Some? { FoundIsText(a.entries.value, ROOTFS_GUID, DEV_PATH_MAX); }
    hide Search, DeviceOf;
  }

  // ----- Mounting -----

  /** Settings with which the code goes on to mount: no dm-crypt, and read-only where it has to be. */
  predicate Mountable(s: Settings) {
    && s.crypt & CRYPT == 0
    && (s.fsType == "squashfs" || s.crypt == VERITY ==> s.ro)
  }

  /** All device-mapper steps succeed. */
  predicate DmWorks(a: DmAnswers) {
    a.openOk && a.createOk && a.loadOk && a.resumeOk && a.nodeOk
  }

  /** The request for parsed metadata: the table without loss, the volume in sectors. */
  function TableRequest(m: Meta, layout: Layout): (r: Request)
    requires m.table.Some?
  {
    var table := m.table.value;
    Request(if m.settings.crypt == VERITY then "verity" else "integrity", m.settings.ro, table.size / SECTOR,
            table.text, layout.header, layout.header + layout.spec + |table.text| + 1)
  }

  /** The mount for the metadata `m` of the partition `dev`. */
  function MountOf(dev: string, s: Settings): (m: Mount) {
    Mount(if s.crypt == NONE then dev else DM_NODE, s.fsType, s.ro)
  }

  /** A parsed table, complete and short enough to be handed over unchanged. */
  ghost predicate Ready(m: Meta) {
    && (m.table.Some? <==> m.settings.crypt == VERITY || m.settings.crypt == INTEGRITY)
    && (m.table.Some? ==> |m.table.value.text| < TABLE_SIZE && NUL !in m.table.value.text)
    && (m.settings.crypt & CRYPT == 0 ==> m.settings.crypt == NONE || m.table.Some?)
  }

  lemma CryptOptions(word: string)
    requires CryptOf(word).Some?
    ensures var c := CryptOf(word).value;
            c & CRYPT == 0 ==> c == NONE || c == VERITY || c == INTEGRITY
  {
  }

  lemma SettingsCrypt(block: string)
    requires SettingsOf(block).Some?
    ensures var c := SettingsOf(block).value.crypt;
            c & CRYPT == 0 ==> c == NONE || c == VERITY || c == INTEGRITY
  {
    CryptOptions(Tokens(block)[3]);
    hide CryptOf, Tokens;
  }

  lemma ParsedIsReady(s: string, dev: string, keyring: Keyring)
    requires NUL !in s && NUL !in dev && Parse(s, dev, keyring).Some?
    ensures Ready(Parse(s, dev, keyring).value)
  {
    ParsedTableIsText(s, dev, keyring);
    var (settings, blocks) := AtSeparator(s).value;
    SettingsCrypt(settings);
    hide SettingsOf, VerityTable, IntegrityTable, AtSeparator;
  }

  /** All that is needed for a mount with settings `s` succeeds. */
  predicate MountsWith(s: Settings, e: Mounting) {
    Mountable(s) && (s.crypt != NONE ==> DmWorks(e.dm)) && e.mkdirOk && e.mountOk
  }

  /** The device-mapper steps made for `m`: those of its table, up to the first that is refused or fails. */
  function StepsFor(m: Meta, e: Mounting): (steps: seq<DmEvent>) {
    var s := m.settings;
    if m.table.None? || (s.fsType == "squashfs" && !s.ro) || DmCtl.Target(s.crypt, s.ro).None? then []
    else AllSteps(e.dm.devId, TableRequest(m, e.layout))[..StepCount(e.dm)]
  }

  /** The steps for a table, one by one. */
  lemma StepsForMeaning(m: Meta, e: Mounting)
    requires m.table.Some?
    ensures var s, a, steps := m.settings, e.dm, StepsFor(m, e);
            && |steps| == (if (s.fsType == "squashfs" && !s.ro) || !((s.crypt == 1 && s.ro) || s.crypt == 2)
                              || !a.openOk || !a.createOk then 0
                           else if !a.loadOk then 1 else if !a.resumeOk then 2 else if !a.nodeOk then 3 else 4)
            && (|steps| >= 1 ==> steps[0] == Created("rootfs", a.devId))
            && (|steps| >= 2 ==>
                  var n := |m.table.value.text|;
                  steps[1] == Loaded(a.devId, Request(if s.crypt == 1 then "verity" else "integrity", s.ro,
                                                      m.table.value.size / 512, m.table.value.text, e.layout.header,
                                                      e.layout.header + e.layout.spec + n + 1)))
            && (|steps| >= 3 ==> steps[2] == Resumed(a.devId))
            && (|steps| == 4 ==> steps[3] == NodeMade("/dev/mapper/rootfs", a.devId, !s.ro))
  {
  }

  /** What setting up the root file system does. */
  function SetupEvents(dev: string, m: Meta, e: Mounting): (events: seq<Event>) {
    Lift(StepsFor(m, e)) + if MountsWith(m.settings, e) then [Mounted(MountOf(dev, m.settings))] else []
  }

  /**
   `cominitSetupRootfs` for metadata `m`: mounts exactly when all that is needed for it
   succeeds, and then in the order create, load, resume, node, mount.
   */
  method SetupRootfs(meta: RfsMeta, env: Mounting, log: Log, ghost m: Meta, ghost size: nat) returns (ok: bool)
    requires Holds(meta, m, size) && Ready(m) && m.settings.crypt & CRYPT == 0
    modifies meta`devicePath, log
    ensures ok <==> MountsWith(m.settings, env)
    ensures var s, dev := m.settings, old(meta.devicePath);
            log.events == old(log.events) + (Lift(StepsFor(m, env)) +
              if ok then [Mounted(Mount(if s.crypt == 0 then dev else "/dev/mapper/rootfs", s.fsType, s.ro))] else [])
  {
    if m.table.Some? { StepsForMeaning(m, env); } else { assert StepsFor(m, env) == []; }
    hide Lift, StepsFor, AllSteps, TableRequest;
    ghost var before := log.events;
    ok := false;
    if !meta.ro && meta.fsType == "squashfs" {
      NoSteps(before);
      return;
    }
    var works, steps := true, [];
    if meta.crypt != NONE {
      works, steps := SetupDmDevice(meta, env.layout, env.dm);
    }
    RecordSteps(log, steps);
    assert steps == StepsFor(m, env);
    if !works || !env.mkdirOk || !env.mountOk { return; }
    log.Record(Mounted(Mount(meta.devicePath, meta.fsType, meta.ro)));
    ok := true;
  }

  method RecordSteps(log: Log, steps: seq<DmEvent>)
    modifies log
    ensures log.events == old(log.events) + Lift(steps)
  {
    var i := 0;
    while i < |steps|
      invariant 0 <= i <= |steps| && log.events == old(log.events) + Lift(steps)[..i]
    {
      log.Record(Dm(steps[i]));
      i := i + 1;
    }
  }

  lemma NoSteps(before: seq<Event>)
    ensures before + (Lift([]) + []) == before
  {
  }

  // ----- Secure storage -----

  /** `cominitTpmSecureStorageEnabled`. */
  predicate StorageEnabled(o: Options) {
    o.blob != "" && o.seal != [] && o.secure != ""
  }

  /** The register values that count: after the extension, if one was asked for and worked. */
  function Registers(o: Options, w: Storing): (pcrs: SealProtocol.Pcrs) {
    if o.extend.Some? && w.extendOk then Extended(w.pcrs, o.extend.value, w.extend) else w.pcrs
  }

  /** `Esys_PCR_Extend` with the digest of the public key. */
  function Extended(pcrs: SealProtocol.Pcrs, index: nat, extend: nat -> nat): (r: SealProtocol.Pcrs) {
    k => if k == index then extend(pcrs(k)) else pcrs(k)
  }

  ghost predicate InBitmap(ns: seq<nat>, w: Storing) {
    Pcr.SELECT_SIZE <= w.room && Pcr.Inside(ns, w.room)
  }

  /** Register values and selection of this boot. */
  ghost function ParamsOf(o: Options, w: Storing): (p: SealProtocol.Params)
    requires InBitmap(o.seal, w)
  {
    SealProtocol.Params(Registers(o, w), Pcr.PolicySelection(o.seal, w.room))
  }

  /** What is true of every run of the protocol with its outcome. */
  ghost predicate Follows(w: Storing, p: SealProtocol.Params, actions: seq<SealProtocol.Action>, state: Tpm.TpmState) {
    var s := SealProtocol.Exec(SealProtocol.Start(w.d, p), actions);
    && SealProtocol.Run(SealProtocol.Start(w.d, p), actions)
    && !state.Sealed?
    && (!w.faulty ==> s.b.seal.synced && actions != [] && actions[|actions| - 1] == SealProtocol.Unmount)
    && (state.Unsealed? ==>
          s.b.storage.isOpen && s.d.blob.Whole? && s.b.unseal.keyring == Some(s.d.blob.blob.secret))
    && (!w.faulty && w.d.blob.Absent? && w.d.slot.None? ==> state.Unsealed? && s.d.volume.Luks? && s.d.volume.fs)
    && (!w.faulty && w.d.blob.Whole? && w.d.blob.blob.policy != SealProtocol.PolicyOf(p) ==> state.TpmPolicyFailure?)
    && (!w.faulty && w.d.blob.Whole? && w.d.blob.blob.policy == SealProtocol.PolicyOf(p) ==>
          s.b.unseal.keyring == Some(w.d.blob.blob.secret))
    && (!w.faulty && w.d.blob.Whole? && w.d.blob.blob.policy == SealProtocol.PolicyOf(p) && Keyed(w.d) ==>
          state.Unsealed?)
  }

  /** The secret of the blob opens the volume. */
  ghost predicate Keyed(d: SealProtocol.Persistent)
    requires d.blob.Whole?
  {
    SealProtocol.Opens(d.volume, d.blob.blob.secret)
  }

  /** What using the secure storage does, seen from `main`. */
  function UseEvents(state: Option<Tpm.TpmState>): (events: seq<Event>)
    ensures state.Some? ==> events == [Protected(state.value)]
    ensures state.None? ==> events == []
  {
    if state.Some? then [Protected(state.value)] else []
  }

  /** The TPM part of `main` from `cominitUseTpm` on, with `cominitTpmSelectPcr`. */
  method UseTpm(args: CliArgs, w: Storing, log: Log)
    returns (state: Option<Tpm.TpmState>, actions: seq<SealProtocol.Action>)
    requires args.Valid() && SealProtocol.Inv(w.d)
    requires w.initOk && StorageEnabled(args.View()) ==> InBitmap(args.View().seal, w)
    modifies log
    ensures state.Some? <==> w.initOk && args.devNodeBlob != "" && args.pcrSealCount > 0 && args.devNodeCrypt != ""
    ensures state.None? ==> actions == []
    ensures log.events == old(log.events) + (if state.Some? then [Protected(state.value)] else [])
    ensures state.Some? ==> InBitmap(args.View().seal, w) && Follows(w, ParamsOf(args.View(), w), actions, state.value)
  {
    state, actions := None, [];
    var enabled := args.devNodeBlob != "" && args.pcrSealCount > 0 && args.devNodeCrypt != "";
    if (!args.pcrSet && !enabled) || !w.initOk { return; }
    var pcrs := w.pcrs;
    if args.pcrSet && w.extendOk { pcrs := Extended(w.pcrs, args.pcrIndex, w.extend); }
    if enabled {
      var sel := Select(args.pcrSeal[..args.pcrSealCount], w);
      hide *;
      var result;
      result, actions := Protect(args.devNodeBlob, SealProtocol.Params(pcrs, sel), w);
      log.Record(Protected(result));
      state := Some(result);
    }
  }

  method Select(ns: seq<nat>, w: Storing) returns (sel: seq<bv8>)
    requires InBitmap(ns, w)
    ensures sel == Pcr.PolicySelection(ns, w.room)
  {
    var select := new bv8[w.room](_ => 0);
    assert select[..] == seq(w.room, _ => 0 as bv8);
    var _ := Pcr.SelectPcr(select, ns);
    sel := select[..Pcr.SELECT_SIZE];
  }

  method Protect(devNodeBlob: string, params: SealProtocol.Params, w: Storing)
    returns (state: Tpm.TpmState, actions: seq<SealProtocol.Action>)
    requires devNodeBlob != "" && SealProtocol.Inv(w.d)
    ensures Follows(w, params, actions, state)
  {
    hide SealProtocol.PolicyOf, SealProtocol.Inv, SealProtocol.BootInv;
    var platform := new Tpm.Platform(w.d, params, w.faulty);
    state := platform.ProtectData(devNodeBlob);
    actions := platform.trace;
  }

  /**
   The node of the secure storage: given, or looked for on the root disk, or else under
   /dev. It is what the search leaves in the buffer, found or not.
   */
  function StorageNode(given: string, root: Disk, w: Storing): (node: string) {
    if given != "" then given
    else if root.name != "" then NodeBuffer(root, w.io, STORAGE_GUID, DEV_PATH_MAX, given)
    else if w.entries.None? then given
    else SearchBuffer(w.entries.value, STORAGE_GUID, DEV_PATH_MAX, given)
  }

  /**
   Without a node given: on the root disk, the node of the first match, cut to 255 characters;
   without a match, none; and without a root disk, the node of the first entry under /dev that
   yields one.
   */
  lemma StorageNodeMeaning(root: Disk, w: Storing)
    ensures forall given :: given != "" ==> StorageNode(given, root, w) == given
    ensures var guid := "CA7D7CCB-63ED-4C53-861C-1742536059CC";
            && (root.name != "" && OnDisk(root, w.io, guid, 256).Some? ==>
                  StorageNode("", root, w) == OnDisk(root, w.io, guid, 256).value)
            && (root.name != "" && Scannable(root, w.io) ==> forall i: nat ::
                  FirstMatch(root, w.io, w.io.size.value, guid, i) ==>
                    var name := Guid.NodeName(root.name, i + 1);
                    StorageNode("", root, w) == if |name| <= 255 then name else name[..255])
            && (root.name != "" && !Scannable(root, w.io) ==> StorageNode("", root, w) == "")
            && (root.name != "" && Scannable(root, w.io) ==>
                  (forall i: nat :: !FirstMatch(root, w.io, w.io.size.value, guid, i)) ==>
                    StorageNode("", root, w) == "")
            && (root.name == "" && w.entries.Some? && Search(w.entries.value, guid, 256).Some? ==>
                  StorageNode("", root, w) == Search(w.entries.value, guid, 256).value.1)
  {
    hide FirstMatch, SearchBuffer, Search;
    if Scannable(root, w.io) {
      forall i: nat
        ensures Scan(root, w.io, w.io.size.value, STORAGE_GUID, 0) == Some(i) <==>
                FirstMatch(root, w.io, w.io.size.value, STORAGE_GUID, i)
      {
        ScanFindsFirst(root, w.io, w.io.size.value, STORAGE_GUID, 0, i);
      }
    }
    hide Scan;
  }

  /** The search for the secure storage in `main`. */
  method FindStorage(args: CliArgs, root: Disk, w: Storing)
    requires args.Valid() && Names(w.entries)
    modifies args`devNodeCrypt
    ensures args.View() == old(args.View()).(secure := StorageNode(old(args.devNodeCrypt), root, w))
  {
    hide OnDisk, Search, NodeBuffer, SearchBuffer;
    if args.devNodeCrypt == "" {
      var found, node;
      if root.name != "" {
        found, node := FindPartitionOnDisk(root, w.io, STORAGE_GUID, DEV_PATH_MAX, args.devNodeCrypt);
      } else {
        var other := new GptDisk(root);
        found, node := FindPartition(other, w.entries, STORAGE_GUID, DEV_PATH_MAX, args.devNodeCrypt);
      }
      args.devNodeCrypt := node;
    }
  }

  // ----- What a run may do -----

  /** `dev` is the partition that the search comes up with. */
  ghost predicate IsRoot(argv: seq<string>, env: Env, dev: string) {
    exists n: nat :: FirstFound(DeviceOf(argv, ROOT), env.loading.attempt, n)
                     && Candidate(DeviceOf(argv, ROOT), env.loading.attempt(n)) == Some(dev)
  }

  /** `disk` is the disk that the search leaves behind. */
  ghost predicate IsRootDisk(argv: seq<string>, env: Env, disk: Disk) {
    exists n: nat :: FirstFound(DeviceOf(argv, ROOT), env.loading.attempt, n)
                     && CandidateDisk(DeviceOf(argv, ROOT), env.loading.attempt(n)) == disk
  }

  /** `framed` was read from the end of `dev`, its signature was accepted, and it is valid metadata. */
  ghost predicate IsSigned(load: Loading, dev: string, framed: Framed) {
    && ReadRegion(load.partition(dev)).Some? && Frame(ReadRegion(load.partition(dev)).value) == Some(framed)
    && load.verify(framed.data + [NUL], framed.signature)
    && Parse(framed.data, dev, load.keyring).Some?
  }

  /**
   Device-mapper steps there were before the mount: for plain metadata none; otherwise, right
   before it, create, load, resume and node on one id, with the table, target, mode and size
   that were parsed, and no others.
   */
  ghost predicate StepsBefore(before: seq<Event>, m: Meta) {
    var n := |before|;
    if m.settings.crypt == 0 then forall k :: 0 <= k < n ==> !before[k].Dm?
    else
      && m.table.Some? && 4 <= n && (forall k :: 0 <= k < n - 4 ==> !before[k].Dm?)
      && before[n - 4].Dm? && before[n - 4].step.Created? && before[n - 4].step.name == "rootfs"
      && var id := before[n - 4].step.id;
      && before[n - 3].Dm? && before[n - 3].step.Loaded? && before[n - 3].step.id == id
      && before[n - 3].step.request.table == m.table.value.text
      && before[n - 3].step.request.target == (if m.settings.crypt == 1 then "verity" else "integrity")
      && before[n - 3].step.request.readOnly == m.settings.ro
      && before[n - 3].step.request.sectors == m.table.value.size / 512
      && before[n - 2] == Dm(Resumed(id))
      && before[n - 1] == Dm(NodeMade("/dev/mapper/rootfs", id, !m.settings.ro))
  }

  /**
   The event `e`, which came before the mount, justifies it: it accepted signed metadata of the
   root partition, the mount is what that says, and what had to come before it did.
   */
  ghost predicate Justifies(argv: seq<string>, env: Env, e: Event, before: seq<Event>, mount: Mount) {
    && e.Accepted? && IsRoot(argv, env, e.dev) && IsSigned(env.loading, e.dev, e.framed)
    && var m := Parse(e.framed.data, e.dev, env.loading.keyring).value;
    && (m.settings.crypt == 0 || m.settings.crypt == 1 || m.settings.crypt == 2)
    && mount.source == (if m.settings.crypt == 0 then e.dev else "/dev/mapper/rootfs")
    && mount.fsType == m.settings.fsType && mount.readOnly == m.settings.ro
    && (m.settings.fsType == "squashfs" || m.settings.crypt == 1 ==> mount.readOnly)
    && StepsBefore(before, m)
  }

  /** Whole-run safety: every mount is justified by what happened before it. */
  ghost predicate Safe(argv: seq<string>, env: Env, trace: seq<Event>) {
    forall i :: 0 <= i < |trace| && trace[i].Mounted? ==>
      exists j :: 0 <= j < i && Justifies(argv, env, trace[j], trace[..i], trace[i].mount)
  }

  /** Nothing of the device mapper and no mount. */
  ghost predicate Quiet(trace: seq<Event>) {
    forall i :: 0 <= i < |trace| ==> !trace[i].Dm? && !trace[i].Mounted?
  }

  /** The metadata of a partition, if it can be read and its signature is good. */
  function MetadataOf(load: Loading, dev: string): (r: Option<Meta>) {
    match ReadRegion(load.partition(dev))
    case None => None
    case Some(buf) => Load(buf, load.verify, dev, load.keyring)
  }

  /** The metadata is what the bytes say that were read, framed and signed. */
  lemma MetadataMeaning(load: Loading, dev: string, m: Meta)
    ensures MetadataOf(load, dev) == Some(m) <==>
            exists framed :: IsSigned(load, dev, framed) && Parse(framed.data, dev, load.keyring) == Some(m)
  {
    hide Parse, Frame, ReadRegion;
    if MetadataOf(load, dev) == Some(m) {
      var framed := Frame(ReadRegion(load.partition(dev)).value).value;
      assert IsSigned(load, dev, framed) && Parse(framed.data, dev, load.keyring) == Some(m);
    }
  }

  /** Mounting and handing over work for settings `s`. */
  predicate HandsOver(s: Settings, e: Mounting) {
    MountsWith(s, e) && e.switchOk && e.initOk
  }

  predicate Asked(argv: seq<string>) {
    "-V" in argv || "--version" in argv || "-h" in argv || "--help" in argv
  }

  /** What it takes for the root file system to be mounted, in terms of the answers. */
  ghost predicate Mounts(argv: seq<string>, env: Env) {
    var e := env.mounting;
    && !Asked(argv) && env.loading.sysfilesOk && e.mkdirOk && e.mountOk
    && exists dev :: IsRoot(argv, env, dev) && MetadataOf(env.loading, dev).Some?
                     && var s := MetadataOf(env.loading, dev).value.settings;
                     && (s.crypt == 0 || s.crypt == 1 || s.crypt == 2)
                     && (s.fsType == "squashfs" || s.crypt == 1 ==> s.ro)
                     && (s.crypt != 0 ==> e.dm.openOk && e.dm.createOk && e.dm.loadOk && e.dm.resumeOk && e.dm.nodeOk)
  }

  /** What it takes to get to /sbin/init; the secure storage has no say in it. */
  ghost predicate Boots(argv: seq<string>, env: Env) {
    Mounts(argv, env) && env.mounting.switchOk && env.mounting.initOk
  }

  /** There is only one such partition, and one such disk. */
  lemma OneRoot(argv: seq<string>, env: Env, a: string, b: string)
    requires IsRoot(argv, env, a) && IsRoot(argv, env, b)
    ensures a == b
  {
    hide Candidate;
    var root, attempt := DeviceOf(argv, ROOT), env.loading.attempt;
    var n: nat :| FirstFound(root, attempt, n) && Candidate(root, attempt(n)) == Some(a);
    var k: nat :| FirstFound(root, attempt, k) && Candidate(root, attempt(k)) == Some(b);
    assert n == k;
  }

  lemma OneDisk(argv: seq<string>, env: Env, a: Disk, b: Disk)
    requires IsRootDisk(argv, env, a) && IsRootDisk(argv, env, b)
    ensures a == b
  {
    hide Candidate, CandidateDisk;
    var root, attempt := DeviceOf(argv, ROOT), env.loading.attempt;
    var n: nat :| FirstFound(root, attempt, n) && CandidateDisk(root, attempt(n)) == a;
    var k: nat :| FirstFound(root, attempt, k) && CandidateDisk(root, attempt(k)) == b;
    assert n == k;
  }

  /** With its metadata `m` accepted and `disk` as root disk, the secure storage is asked for. */
  ghost predicate Wants(o: Options, env: Env, m: Meta, disk: Disk) {
    && m.settings.crypt & CRYPT == 0 && env.storing.initOk
    && StorageEnabled(o.(secure := StorageNode(o.secure, disk, env.storing)))
  }

  /** What it takes for the secure storage to be used. */
  ghost predicate UsesStorage(argv: seq<string>, env: Env) {
    var o := OptionsOf(argv, env.pcrCount, env.einval);
    && !Asked(argv) && env.loading.sysfilesOk && env.storing.initOk && o.blob != "" && o.seal != []
    && exists dev, disk ::
         && IsRoot(argv, env, dev) && IsRootDisk(argv, env, disk) && MetadataOf(env.loading, dev).Some?
         && MetadataOf(env.loading, dev).value.settings.crypt & 4 == 0
         && StorageNode(o.secure, disk, env.storing) != ""
  }

  /**
   What the environment promises. The register numbers listed lie in the selection bitmap,
   if the secure storage comes to be used at all.
   */
  ghost predicate Sane(argv: seq<string>, env: Env) {
    && Texts(argv) && env.pcrCount <= TWO64
    && (UsesStorage(argv, env) ==> InBitmap(OptionsOf(argv, env.pcrCount, env.einval).seal, env.storing))
    && (forall n :: Names(env.loading.attempt(n).entries))
    && Names(env.storing.entries)
    && Bounded(env.loading.keyring)
    && SealProtocol.Inv(env.storing.d)
  }

  /** The secure storage was used as the protocol says, right after the metadata was accepted, or not at all. */
  ghost predicate StorageUsed(argv: seq<string>, env: Env, trace: seq<Event>, actions: seq<SealProtocol.Action>,
                              used: bool)
  {
    var o := OptionsOf(argv, env.pcrCount, env.einval);
    if used then
      exists j :: 0 < j < |trace| && trace[j].Protected? && trace[j - 1].Accepted?
                  && InBitmap(o.seal, env.storing)
                  && Follows(env.storing, ParamsOf(o, env.storing), actions, trace[j].state)
    else
      actions == [] && forall j :: 0 <= j < |trace| ==> !trace[j].Protected?
  }

  /** A run that ends in the new root: the last things it did were the mount and the switch. */
  ghost predicate HandedOver(trace: seq<Event>) {
    2 <= |trace| && trace[|trace| - 2].Mounted? && trace[|trace| - 1].Switched?
  }

  /** Metadata that was accepted for the root partition. */
  ghost predicate Genuine(argv: seq<string>, env: Env, dev: string, framed: Framed, m: Meta) {
    && IsRoot(argv, env, dev) && IsSigned(env.loading, dev, framed)
    && m == Parse(framed.data, dev, env.loading.keyring).value && Ready(m)
  }

  /** What signed metadata of the root partition is. */
  lemma SignedIsGenuine(argv: seq<string>, env: Env, n: nat, framed: Framed)
    requires Sane(argv, env) && FirstFound(DeviceOf(argv, ROOT), env.loading.attempt, n)
    requires IsSigned(env.loading, Candidate(DeviceOf(argv, ROOT), env.loading.attempt(n)).value, framed)
    ensures var dev := Candidate(DeviceOf(argv, ROOT), env.loading.attempt(n)).value;
            var m := Parse(framed.data, dev, env.loading.keyring).value;
            Genuine(argv, env, dev, framed, m) && MetadataOf(env.loading, dev) == Some(m)
  {
    hide Candidate, Frame, ReadRegion, Parse, Ready, DeviceOf, Texts, Names, Bounded, UsesStorage, SealProtocol.Inv;
    var dev := Candidate(DeviceOf(argv, ROOT), env.loading.attempt(n)).value;
    CandidateIsText(argv, env.loading.attempt(n));
    FrameRanges(ReadRegion(env.loading.partition(dev)).value, framed);
    ParsedIsReady(framed.data, dev, env.loading.keyring);
  }

  // ----- The whole course of a run -----

  /** What happens up to the secure storage. */
  function Opening(waits: nat, dev: string, framed: Framed, state: Option<Tpm.TpmState>): (events: seq<Event>)
    ensures Quiet(events) && waits < |events| && events[waits] == Accepted(dev, framed)
  {
    Waits(waits) + [Accepted(dev, framed)] + UseEvents(state)
  }

  /** What happens after it, for the metadata `m` of `dev`. */
  function Ending(dev: string, m: Meta, e: Mounting): (events: seq<Event>) {
    if m.settings.crypt & CRYPT != 0 then []
    else SetupEvents(dev, m, e) + if MountsWith(m.settings, e) && e.switchOk then [Switched] else []
  }

  /** The run that finds `dev` in attempt `n`. */
  ghost predicate RecordedFrom(env: Env, n: nat, dev: string, trace: seq<Event>) {
    match MetadataOf(env.loading, dev)
    case None => trace == Waits(n)
    case Some(m) =>
      exists framed, state ::
        IsSigned(env.loading, dev, framed) && trace == Opening(n, dev, framed, state) + Ending(dev, m, env.mounting)
  }

  /** The trace is all that happened, in order: only the outcome of the secure storage is open. */
  ghost predicate Recorded(argv: seq<string>, env: Env, trace: seq<Event>) {
    var root, attempt := DeviceOf(argv, ROOT), env.loading.attempt;
    if Asked(argv) || !env.loading.sysfilesOk then trace == []
    else
      || (trace == Waits(WAIT_TRIES) && forall n: nat :: !FirstFound(root, attempt, n))
      || exists n: nat :: FirstFound(root, attempt, n) && RecordedFrom(env, n, Candidate(root, attempt(n)).value, trace)
  }

  /** There is a mount in the trace. */
  ghost predicate HasMount(trace: seq<Event>) {
    exists i :: 0 <= i < |trace| && trace[i].Mounted?
  }

  lemma EndingHasMount(n: nat, dev: string, framed: Framed, state: Option<Tpm.TpmState>, m: Meta, e: Mounting)
    ensures HasMount(Opening(n, dev, framed, state) + Ending(dev, m, e)) <==> MountsWith(m.settings, e)
    ensures Switched in Opening(n, dev, framed, state) + Ending(dev, m, e) <==> MountsWith(m.settings, e) && e.switchOk
  {
    hide MountsWith, StepsFor;
    assert MountsWith(m.settings, e) ==> m.settings.crypt & CRYPT == 0 by { MountableHasNoCrypt(m.settings, e); }
    var pre, steps := Opening(n, dev, framed, state), Lift(StepsFor(m, e));
    var trace := pre + Ending(dev, m, e);
    if MountsWith(m.settings, e) {
      assert trace[|pre| + |steps|] == Mounted(MountOf(dev, m.settings));
      if e.switchOk { assert trace[|pre| + |steps| + 1] == Switched; }
    }
  }

  lemma MountableHasNoCrypt(s: Settings, e: Mounting)
    ensures MountsWith(s, e) ==> s.crypt & CRYPT == 0
  {
  }

  lemma EndingHandsOver(n: nat, dev: string, framed: Framed, state: Option<Tpm.TpmState>, m: Meta, e: Mounting)
    requires MountsWith(m.settings, e) && e.switchOk
    ensures HandedOver(Opening(n, dev, framed, state) + Ending(dev, m, e))
  {
    hide StepsFor;
  }

  /** A run with one mount is safe if that mount is justified. */
  lemma SafeMount(argv: seq<string>, env: Env, pre: seq<Event>, steps: seq<DmEvent>, mount: Mount,
                  post: seq<Event>, j: nat)
    requires Quiet(pre) && Quiet(post) && j < |pre|
    requires Justifies(argv, env, pre[j], pre + Lift(steps), mount)
    ensures Safe(argv, env, pre + Lift(steps) + [Mounted(mount)] + post)
  {
    hide Justifies;
    var before := pre + Lift(steps);
    var trace := before + [Mounted(mount)] + post;
    assert trace[..|before|] == before;
    forall i | 0 <= i < |trace| && trace[i].Mounted?
      ensures exists j :: 0 <= j < i && Justifies(argv, env, trace[j], trace[..i], trace[i].mount)
    {
      assert i == |before|;
      assert trace[j] == pre[j];
    }
  }

  /** A run without a mount is safe. */
  lemma SafeWithout(argv: seq<string>, env: Env, trace: seq<Event>)
    requires !HasMount(trace)
    ensures Safe(argv, env, trace)
  {
  }

  /** With a mount, the steps before it are all four, or none are needed. */
  lemma AllStepsBefore(pre: seq<Event>, m: Meta, e: Mounting)
    requires Quiet(pre) && Ready(m) && MountsWith(m.settings, e)
    ensures StepsBefore(pre + Lift(StepsFor(m, e)), m)
  {
    var steps := StepsFor(m, e);
    var before := pre + Lift(steps);
    if m.settings.crypt == NONE {
      assert steps == [];
    } else {
      assert steps == AllSteps(e.dm.devId, TableRequest(m, e.layout));
      assert forall k :: 0 <= k < 4 ==> before[|before| - 4 + k] == Dm(steps[k]);
    }
  }

  lemma MountIsJustified(argv: seq<string>, env: Env, dev: string, framed: Framed, m: Meta, pre: seq<Event>, j: nat)
    requires Genuine(argv, env, dev, framed, m) && MountsWith(m.settings, env.mounting)
    requires Quiet(pre) && j < |pre| && pre[j] == Accepted(dev, framed)
    ensures Justifies(argv, env, pre[j], pre + Lift(StepsFor(m, env.mounting)), MountOf(dev, m.settings))
  {
    hide Parse, IsRoot, IsSigned, StepsBefore, StepsFor, Lift, Quiet;
    AllStepsBefore(pre, m, env.mounting);
  }

  lemma EndingIsSafe(argv: seq<string>, env: Env, n: nat, dev: string, framed: Framed, state: Option<Tpm.TpmState>,
                     m: Meta)
    requires Genuine(argv, env, dev, framed, m)
    ensures Safe(argv, env, Opening(n, dev, framed, state) + Ending(dev, m, env.mounting))
  {
    hide Genuine, Justifies, StepsFor, Safe, Opening, HasMount, Quiet, MountsWith, MountOf, Lift;
    var pre, steps := Opening(n, dev, framed, state), StepsFor(m, env.mounting);
    EndingHasMount(n, dev, framed, state, m, env.mounting);
    if MountsWith(m.settings, env.mounting) {
      MountableHasNoCrypt(m.settings, env.mounting);
      MountIsJustified(argv, env, dev, framed, m, pre, n);
      var mount, post := MountOf(dev, m.settings), if env.mounting.switchOk then [Switched] else [];
      QuietEnd(post);
      SafeMount(argv, env, pre, steps, mount, post, n);
      Regroup(pre, Lift(steps), [Mounted(mount)], post);
    } else {
      SafeWithout(argv, env, pre + Ending(dev, m, env.mounting));
    }
  }

  lemma Regroup(a: seq<Event>, b: seq<Event>, c: seq<Event>, d: seq<Event>)
    ensures a + (b + c + d) == a + b + c + d
  {
  }

  lemma QuietEnd(end: seq<Event>)
    requires end == [] || end == [Switched]
    ensures Quiet(end)
  {
  }

  // ----- The parts of main -----

  /** From the start to the metadata: what was found and accepted. */
  method Prepare(argv: seq<string>, env: Env, root: string, meta: RfsMeta, gptDisk: GptDisk, log: Log)
    returns (waits: nat, framed: Option<Framed>, ghost m: Meta)
    requires Sane(argv, env) && root == DeviceOf(argv, ROOT) && meta.dataSize == 0 && gptDisk.disk == NO_DISK
    requires !Asked(argv) && env.loading.sysfilesOk && log.events == []
    modifies meta, gptDisk, log
    ensures framed.Some? ==>
              && FirstFound(root, env.loading.attempt, waits)
              && Candidate(root, env.loading.attempt(waits)) == Some(meta.devicePath)
              && log.events == Opening(waits, meta.devicePath, framed.value, None)
              && Genuine(argv, env, meta.devicePath, framed.value, m) && Holds(meta, m, 0)
              && MetadataOf(env.loading, meta.devicePath) == Some(m) && IsRootDisk(argv, env, gptDisk.disk)
    ensures framed.None? ==> Recorded(argv, env, log.events) && NoMetadata(argv, env) && !HasMount(log.events)
    ensures framed.None? ==> Switched !in log.events && forall i :: 0 <= i < |log.events| ==> !log.events[i].Protected?
  {
    hide Candidate, CandidateDisk, Frame, ReadRegion, Parse, Ready, DeviceOf, Texts, Names, Bounded, SealProtocol.Inv,
         UsesStorage, Genuine, Asked;
    framed, m := None, Meta(Settings("", false, NONE), None);
    var found;
    found, waits := AwaitRootfs(root, meta, gptDisk, env.loading.attempt, log);
    assert log.events == Waits(waits);
    if !found { return; }
    var dev := meta.devicePath;
    assert IsRoot(argv, env, dev);
    framed := LoadVerifyMetadata(meta, env.loading.partition(dev), env.loading.verify, env.loading.keyring);
    if framed.Some? {
      log.Record(Accepted(dev, framed.value));
      SignedIsGenuine(argv, env, waits, framed.value);
      m := Parse(framed.value.data, dev, env.loading.keyring).value;
      assert log.events == Opening(waits, dev, framed.value, None);
    } else {
      assert MetadataOf(env.loading, dev).None?;
      assert RecordedFrom(env, waits, dev, log.events);
      forall other | IsRoot(argv, env, other) ensures MetadataOf(env.loading, other).None? {
        OneRoot(argv, env, dev, other);
      }
    }
  }

  /** No root partition with metadata that can be accepted. */
  ghost predicate NoMetadata(argv: seq<string>, env: Env) {
    forall dev :: IsRoot(argv, env, dev) ==> MetadataOf(env.loading, dev).None?
  }

  lemma StorageIsUsed(argv: seq<string>, env: Env, waits: nat, dev: string, framed: Framed,
                      state: Option<Tpm.TpmState>, actions: seq<SealProtocol.Action>, m: Meta)
    requires state.None? ==> actions == []
    requires state.Some? ==>
               InBitmap(OptionsOf(argv, env.pcrCount, env.einval).seal, env.storing) &&
               Follows(env.storing, ParamsOf(OptionsOf(argv, env.pcrCount, env.einval), env.storing), actions,
                       state.value)
    ensures var trace := Opening(waits, dev, framed, state) + Ending(dev, m, env.mounting);
            StorageUsed(argv, env, trace, actions, state.Some?)
  {
    hide Follows, InBitmap, OptionsOf, ParamsOf, MountsWith, StepsFor;
    var trace := Opening(waits, dev, framed, state) + Ending(dev, m, env.mounting);
    if state.Some? {
      assert trace[waits + 1] == Protected(state.value) && trace[waits] == Accepted(dev, framed);
    } else {
      assert forall j :: 0 <= j < |trace| ==> !trace[j].Protected?;
    }
  }

  /** Another node for the storage does not change the parameters. */
  lemma SameParams(o: Options, node: string, w: Storing)
    requires InBitmap(o.seal, w)
    ensures ParamsOf(o.(secure := node), w) == ParamsOf(o, w)
  {
  }

  /** The secure storage in `main`: found and used, or not. */
  method SecureStorage(args: CliArgs, root: Disk, w: Storing, log: Log, ghost o: Options)
    returns (state: Option<Tpm.TpmState>, actions: seq<SealProtocol.Action>)
    requires args.Valid() && args.View() == o && Names(w.entries) && SealProtocol.Inv(w.d)
    requires w.initOk && StorageEnabled(o.(secure := StorageNode(o.secure, root, w))) ==> InBitmap(o.seal, w)
    modifies args`devNodeCrypt, log
    ensures state.Some? <==> w.initOk && StorageEnabled(o.(secure := StorageNode(o.secure, root, w)))
    ensures state.None? ==> actions == []
    ensures state.Some? ==> InBitmap(o.seal, w) && Follows(w, ParamsOf(o, w), actions, state.value)
    ensures log.events == old(log.events) + UseEvents(state)
  {
    hide Names, Follows, ParamsOf, StorageNode, InBitmap, SealProtocol.Inv;
    FindStorage(args, root, w);
    if InBitmap(o.seal, w) { SameParams(o, args.devNodeCrypt, w); }
    state, actions := UseTpm(args, w, log);
  }

  /** Setting up the root file system, cleaning up and switching into it. */
  method Finish(meta: RfsMeta, env: Mounting, log: Log, ghost m: Meta) returns (switched: bool)
    requires Holds(meta, m, 0) && Ready(m) && m.settings.crypt & CRYPT == 0
    modifies meta`devicePath, log
    ensures switched <==> MountsWith(m.settings, env) && env.switchOk
    ensures var s, dev := m.settings, old(meta.devicePath);
            && log.events == old(log.events) + Ending(dev, m, env)
            && var source := if s.crypt == 0 then dev else "/dev/mapper/rootfs";
            && log.events == old(log.events) + (Lift(StepsFor(m, env)) +
                 (if MountsWith(s, env) then [Mounted(Mount(source, s.fsType, s.ro))] else []) +
                 if switched then [Switched] else [])
  {
    hide Holds, Ready, MountsWith, StepsFor, Lift;
    switched := SetupRootfs(meta, env, log, m, 0);
    if switched {
      switched := env.switchOk;
      if switched { log.Record(Switched); }
    }
  }

  /** From the accepted metadata on: `waits` and `framed` are in the log already. */
  method Proceed(argv: seq<string>, env: Env, args: CliArgs, meta: RfsMeta, root: Disk, log: Log,
                 ghost waits: nat, ghost framed: Framed, ghost m: Meta)
    returns (switched: bool, state: Option<Tpm.TpmState>, actions: seq<SealProtocol.Action>)
    requires args.Valid() && args.View() == OptionsOf(argv, env.pcrCount, env.einval)
    requires Names(env.storing.entries) && SealProtocol.Inv(env.storing.d)
    requires Wants(args.View(), env, m, root) ==> InBitmap(args.View().seal, env.storing)
    requires Ready(m) && Holds(meta, m, 0) && log.events == Opening(waits, meta.devicePath, framed, None)
    modifies args`devNodeCrypt, meta`devicePath, log
    ensures var dev := old(meta.devicePath);
            log.events == Opening(waits, dev, framed, state) + Ending(dev, m, env.mounting)
    ensures state.Some? <==> Wants(old(args.View()), env, m, root)
    ensures StorageUsed(argv, env, log.events, actions, state.Some?)
    ensures switched <==> MountsWith(m.settings, env.mounting) && env.mounting.switchOk
  {
    ghost var dev, o := meta.devicePath, OptionsOf(argv, env.pcrCount, env.einval);
    hide StorageUsed, Follows, OptionsOf, ParamsOf, StorageNode, InBitmap, Names, SealProtocol.Inv, DmWorks, Ready,
         SetupEvents, Waits;
    state, actions, switched := None, [], false;
    if meta.crypt & CRYPT == 0 {
      state, actions := SecureStorage(args, root, env.storing, log, o);
      assert log.events == Opening(waits, dev, framed, state);
      switched := Finish(meta, env.mounting, log, m);
    } else {
      assert log.events == log.events + [];
    }
    StorageIsUsed(argv, env, waits, dev, framed, state, actions, m);
  }

  /** With the root partition and its metadata known, the rest decides. */
  lemma BootsIff(argv: seq<string>, env: Env, dev: string, m: Meta)
    requires !Asked(argv) && env.loading.sysfilesOk && IsRoot(argv, env, dev) && MetadataOf(env.loading, dev) == Some(m)
    requires Ready(m)
    ensures Boots(argv, env) <==> HandsOver(m.settings, env.mounting)
    ensures Mounts(argv, env) <==> MountsWith(m.settings, env.mounting)
  {
    SpelledOut(m.settings, env.mounting);
    hide IsRoot, MetadataOf, MountsWith, Asked;
    forall other | IsRoot(argv, env, other) ensures other == dev {
      OneRoot(argv, env, dev, other);
    }
  }

  lemma SpelledOut(s: Settings, e: Mounting)
    requires s.crypt & CRYPT == 0 ==> s.crypt == NONE || s.crypt == VERITY || s.crypt == INTEGRITY
    ensures MountsWith(s, e) <==>
            && (s.crypt == 0 || s.crypt == 1 || s.crypt == 2)
            && (s.fsType == "squashfs" || s.crypt == 1 ==> s.ro)
            && (s.crypt != 0 ==> e.dm.openOk && e.dm.createOk && e.dm.loadOk && e.dm.resumeOk && e.dm.nodeOk)
            && e.mkdirOk && e.mountOk
  {
  }

  /** In the same way it is known whether the secure storage is used. */
  lemma UsesStorageIff(argv: seq<string>, env: Env, dev: string, disk: Disk, m: Meta)
    requires !Asked(argv) && env.loading.sysfilesOk && IsRoot(argv, env, dev) && MetadataOf(env.loading, dev) == Some(m)
    requires IsRootDisk(argv, env, disk)
    ensures UsesStorage(argv, env) <==> Wants(OptionsOf(argv, env.pcrCount, env.einval), env, m, disk)
  {
    hide IsRoot, IsRootDisk, MetadataOf, StorageNode, Asked, OptionsOf;
    forall other | IsRoot(argv, env, other) ensures other == dev {
      OneRoot(argv, env, dev, other);
    }
    forall other | IsRootDisk(argv, env, other) ensures other == disk {
      OneDisk(argv, env, disk, other);
    }
  }

  /** Without metadata nothing comes of it. */
  lemma NothingWithout(argv: seq<string>, env: Env)
    requires NoMetadata(argv, env) || Asked(argv) || !env.loading.sysfilesOk
    ensures !Boots(argv, env) && !Mounts(argv, env) && !UsesStorage(argv, env)
  {
    hide IsRoot, IsRootDisk, MetadataOf, Wants, Asked, OptionsOf, HandsOver, MountsWith;
  }

  lemma SaneStorage(argv: seq<string>, env: Env)
    requires Sane(argv, env)
    ensures Names(env.storing.entries) && SealProtocol.Inv(env.storing.d) && env.pcrCount <= TWO64
    ensures UsesStorage(argv, env) ==> InBitmap(OptionsOf(argv, env.pcrCount, env.einval).seal, env.storing)
  {
  }

  /** What is true of a run, its trace and the actions of the protocol in it. */
  ghost predicate Correct(argv: seq<string>, env: Env, trace: seq<Event>, actions: seq<SealProtocol.Action>) {
    && Recorded(argv, env, trace) && Safe(argv, env, trace)
    && (HasMount(trace) <==> Mounts(argv, env))
    && (Switched in trace <==> Mounts(argv, env) && env.mounting.switchOk)
    && StorageUsed(argv, env, trace, actions, UsesStorage(argv, env))
    && (Boots(argv, env) ==> HandedOver(trace))
  }

  /** A run that ends before any metadata is accepted. */
  lemma EarlyEnd(argv: seq<string>, env: Env, trace: seq<Event>)
    requires NoMetadata(argv, env) || Asked(argv) || !env.loading.sysfilesOk
    requires Recorded(argv, env, trace) && !HasMount(trace) && Switched !in trace
    requires forall i :: 0 <= i < |trace| ==> !trace[i].Protected?
    ensures Correct(argv, env, trace, []) && !Boots(argv, env)
  {
    NothingWithout(argv, env);
    hide Recorded, Safe, HasMount, NoMetadata, Boots, Mounts, UsesStorage, HandedOver, OptionsOf, InBitmap, Follows;
    SafeWithout(argv, env, trace);
  }

  /** A run with accepted metadata. */
  lemma FullCourse(argv: seq<string>, env: Env, n: nat, dev: string, disk: Disk, framed: Framed, m: Meta,
                   state: Option<Tpm.TpmState>, actions: seq<SealProtocol.Action>)
    requires !Asked(argv) && env.loading.sysfilesOk && FirstFound(DeviceOf(argv, ROOT), env.loading.attempt, n)
    requires Candidate(DeviceOf(argv, ROOT), env.loading.attempt(n)) == Some(dev) && IsRootDisk(argv, env, disk)
    requires Genuine(argv, env, dev, framed, m) && MetadataOf(env.loading, dev) == Some(m)
    requires state.Some? <==> Wants(OptionsOf(argv, env.pcrCount, env.einval), env, m, disk)
    requires var trace := Opening(n, dev, framed, state) + Ending(dev, m, env.mounting);
             StorageUsed(argv, env, trace, actions, state.Some?)
    ensures Correct(argv, env, Opening(n, dev, framed, state) + Ending(dev, m, env.mounting), actions)
    ensures Boots(argv, env) <==> HandsOver(m.settings, env.mounting)
  {
    var trace := Opening(n, dev, framed, state) + Ending(dev, m, env.mounting);
    BootsIff(argv, env, dev, m);
    UsesStorageIff(argv, env, dev, disk, m);
    assert RecordedFrom(env, n, dev, trace);
    EndingIsSafe(argv, env, n, dev, framed, state, m);
    EndingHasMount(n, dev, framed, state, m, env.mounting);
    if HandsOver(m.settings, env.mounting) { EndingHandsOver(n, dev, framed, state, m, env.mounting); }
    hide RecordedFrom, Safe, HasMount, Boots, Mounts, UsesStorage, HandedOver, StorageUsed, Opening, Ending, Wants,
         MetadataOf, Genuine, IsRootDisk, IsRoot, Candidate, DeviceOf, Asked, HandsOver, MountsWith;
  }

  /** `main` from the search for the root partition to the switch into it. */
  method Course(argv: seq<string>, env: Env, args: CliArgs, log: Log)
    returns (switched: bool, actions: seq<SealProtocol.Action>)
    requires Sane(argv, env) && !Asked(argv) && env.loading.sysfilesOk && log.events == []
    requires args.Valid() && args.View() == OptionsOf(argv, env.pcrCount, env.einval)
    modifies args`devNodeCrypt, log
    ensures Correct(argv, env, log.events, actions)
    ensures switched && env.mounting.initOk <==> Boots(argv, env)
  {
    hide Recorded, StorageUsed, Genuine, IsRoot, IsRootDisk, MetadataOf, Sane, Holds, Ready, OptionsOf, Wants, Correct,
         UsesStorage, Boots, InBitmap, Names, SealProtocol.Inv, DeviceOf, Opening, Ending, Candidate, NoMetadata,
         HasMount, MountsWith, Asked, FirstFound;
    SaneStorage(argv, env);
    RootOption(argv, env.pcrCount, env.einval);
    actions := [];
    var meta := new RfsMeta("");
    var gptDisk := new GptDisk(NO_DISK);
    var waits, framed, m := Prepare(argv, env, args.devNodeRootFs, meta, gptDisk, log);
    if framed.None? {
      EarlyEnd(argv, env, log.events);
      return false, [];
    }
    ghost var dev := meta.devicePath;
    GenuineParts(argv, env, dev, framed.value, m);
    UsesStorageIff(argv, env, dev, gptDisk.disk, m);
    var state;
    switched, state, actions := Proceed(argv, env, args, meta, gptDisk.disk, log, waits, framed.value, m);
    FullCourse(argv, env, waits, dev, gptDisk.disk, framed.value, m, state, actions);
  }

  /**
   `main`, for every command line and every answer of the system. Its trace is exactly
   what `Recorded` says; every mount is safe, and there is one exactly when `Mounts` says
   so; the secure storage is used as the protocol says; and /sbin/init is reached exactly
   when `Boots` says so, which does not ask how the secure storage turned out. Everything
   else ends in the rescue shell.
   */
  method BootMain(argv: seq<string>, env: Env)
    returns (exit: Exit, trace: seq<Event>, actions: seq<SealProtocol.Action>)
    requires Sane(argv, env)
    ensures Recorded(argv, env, trace) && Safe(argv, env, trace)
    ensures HasMount(trace) <==> Mounts(argv, env)
    ensures Switched in trace <==> Mounts(argv, env) && env.mounting.switchOk
    ensures StorageUsed(argv, env, trace, actions, UsesStorage(argv, env))
    ensures exit.Info? <==> Asked(argv)
    ensures exit.Init? <==> Boots(argv, env)
    ensures exit.Init? ==> HandedOver(trace)
    ensures exit.Shell? <==> !Asked(argv) && !Boots(argv, env) && env.mounting.shellOk
  {
    hide Recorded, Safe, StorageUsed, HandedOver, UsesStorage, Boots, Mounts, HasMount, AsksForInfo, OptionsOf;
    var log := new Log();
    SaneStorage(argv, env);
    var args := ParseArgs(argv, env.pcrCount, env.einval);
    if args.None? || !env.loading.sysfilesOk {
      NoEvents(argv, env);
      EarlyEnd(argv, env, []);
      exit := if args.None? then Info else if env.mounting.shellOk then Shell else Panic;
      return exit, [], [];
    }
    hide Asked, Sane;
    var switched;
    switched, actions := Course(argv, env, args.value, log);
    trace := log.events;
    exit := if switched && env.mounting.initOk then Init else if env.mounting.shellOk then Shell else Panic;
  }

  lemma RootOption(argv: seq<string>, count: nat, einval: bool)
    ensures OptionsOf(argv, count, einval).root == DeviceOf(argv, ROOT)
  {
  }

  lemma GenuineParts(argv: seq<string>, env: Env, dev: string, framed: Framed, m: Meta)
    requires Genuine(argv, env, dev, framed, m)
    ensures IsRoot(argv, env, dev) && Ready(m)
  {
  }

  lemma NoEvents(argv: seq<string>, env: Env)
    ensures Asked(argv) || !env.loading.sysfilesOk ==> Recorded(argv, env, [])
    ensures !HasMount([])
  {
  }

  // ----- Boot after boot -----

  /**
   Whatever happens to any number of boots, power cuts included: on a device with a
   complete blob, a boot without faults gets the secret of that blob into the keyring if
   and only if its policy is the one of the blob, opens the volume if and only if that is
   keyed with the secret as well, and reports a policy failure if the policy differs.
   */
  lemma SecretComesBack(d: SealProtocol.Persistent, rs: seq<SealProtocol.BootRun>,
                        w: Storing, p: SealProtocol.Params, actions: seq<SealProtocol.Action>, state: Tpm.TpmState)
    requires SealProtocol.Inv(d) && d.blob.Whole? && SealProtocol.History(d, rs)
    requires w.d == SealProtocol.Outcome(d, rs) && !w.faulty && Follows(w, p, actions, state)
    ensures var same := d.blob.blob.policy == SealProtocol.PolicyOf(p);
            var s := SealProtocol.Exec(SealProtocol.Start(w.d, p), actions);
            && s.d == d
            && (s.b.unseal.keyring == Some(d.blob.blob.secret) <==> same)
            && (state.Unsealed? <==> same && Keyed(d))
            && (!same ==> state.TpmPolicyFailure?)
  {
    SealProtocol.SetUpForever(d, rs);
    SealProtocol.SetUpIsFrozen(d, p, actions);
    SealProtocol.RunKeepsInv(d, p, actions);
    SealProtocol.ParamsStay(SealProtocol.Start(d, p), actions);
    hide SealProtocol.PolicyOf, SealProtocol.Exec, SealProtocol.Run, SealProtocol.History, SealProtocol.Outcome;
  }

  /** A boot that ends `Unsealed` leaves a complete blob of its own policy and a volume keyed with it. */
  lemma UnsealedIsKeyed(w: Storing, p: SealProtocol.Params, actions: seq<SealProtocol.Action>, state: Tpm.TpmState)
    requires SealProtocol.Inv(w.d) && Follows(w, p, actions, state) && state.Unsealed?
    ensures var d := SealProtocol.Exec(SealProtocol.Start(w.d, p), actions).d;
            && SealProtocol.Inv(d) && d.blob.Whole? && d.blob.blob.policy == SealProtocol.PolicyOf(p) && Keyed(d)
            && |d.blob.blob.secret| == 32
  {
    SealProtocol.RunKeepsInv(w.d, p, actions);
    SealProtocol.ParamsStay(SealProtocol.Start(w.d, p), actions);
    hide SealProtocol.PolicyOf, SealProtocol.Exec, SealProtocol.Run;
  }

  /**
   After any boot that ended `Unsealed`, whatever failed in it, and whatever happens to
   any number of boots after it: a later boot without faults opens the volume with the
   very same passphrase if its policy is the same, and reports a policy failure if not.
   */
  lemma LaterBootOpens(w: Storing, p: SealProtocol.Params, actions: seq<SealProtocol.Action>, state: Tpm.TpmState,
                       rs: seq<SealProtocol.BootRun>,
                       w': Storing, p': SealProtocol.Params, actions': seq<SealProtocol.Action>, state': Tpm.TpmState)
    requires SealProtocol.Inv(w.d) && Follows(w, p, actions, state) && state.Unsealed?
    requires var d := SealProtocol.Exec(SealProtocol.Start(w.d, p), actions).d;
             SealProtocol.History(d, rs) && w'.d == SealProtocol.Outcome(d, rs)
    requires !w'.faulty && Follows(w', p', actions', state')
    ensures state'.Unsealed? <==> SealProtocol.PolicyOf(p) == SealProtocol.PolicyOf(p')
    ensures !state'.Unsealed? ==> state'.TpmPolicyFailure?
    ensures state'.Unsealed? ==>
              SealProtocol.Exec(SealProtocol.Start(w'.d, p'), actions').b.unseal.keyring ==
              SealProtocol.Exec(SealProtocol.Start(w.d, p), actions).b.unseal.keyring
  {
    var d := SealProtocol.Exec(SealProtocol.Start(w.d, p), actions).d;
    UnsealedIsKeyed(w, p, actions, state);
    SecretComesBack(d, rs, w', p', actions', state');
    hide SealProtocol.PolicyOf, SealProtocol.Exec, SealProtocol.Run, SealProtocol.History, SealProtocol.Outcome,
         SealProtocol.Inv, Keyed;
  }

  /**
   Two command lines give the same policy exactly when they name the same registers
   below 24, however written, and these hold the same values after the extension.
   */
  lemma SamePolicyOfOptions(o: Options, w: Storing, o': Options, w': Storing)
    requires InBitmap(o.seal, w) && InBitmap(o'.seal, w') && w.room == w'.room
    ensures SealProtocol.PolicyOf(ParamsOf(o, w)) == SealProtocol.PolicyOf(ParamsOf(o', w')) <==>
            && (forall k :: 0 <= k < 24 ==> (k in o.seal <==> k in o'.seal))
            && (forall k: nat :: k < 24 && k in o.seal ==>
                  (if o.extend == Some(k) && w.extendOk then w.extend(w.pcrs(k)) else w.pcrs(k)) ==
                  (if o'.extend == Some(k) && w'.extendOk then w'.extend(w'.pcrs(k)) else w'.pcrs(k)))
  {
    var p, p' := ParamsOf(o, w), ParamsOf(o', w');
    SealProtocol.SamePolicy(p, p');
    forall k: nat | k < 24
      ensures k in Pcr.SelectedSet(p.sel) <==> k in o.seal
      ensures k in Pcr.SelectedSet(p'.sel) <==> k in o'.seal
    {
      Pcr.PolicySelectionBits(o.seal, w.room, k);
      Pcr.PolicySelectionBits(o'.seal, w'.room, k);
    }
    forall k: nat
      ensures Registers(o, w)(k) == if o.extend == Some(k) && w.extendOk then w.extend(w.pcrs(k)) else w.pcrs(k)
      ensures Registers(o', w')(k) == if o'.extend == Some(k) && w'.extendOk then w'.extend(w'.pcrs(k)) else w'.pcrs(k)
    {
    }
    hide SealProtocol.PolicyOf, Registers, Pcr.PolicySelection;
  }

  /** A completed boot without faults has unmounted the blob partition: a power cut after it takes nothing. */
  lemma CompletedIsKept(w: Storing, p: SealProtocol.Params, actions: seq<SealProtocol.Action>, state: Tpm.TpmState,
                        lost: Option<SealProtocol.BlobFile>)
    requires !w.faulty && Follows(w, p, actions, state)
    requires SealProtocol.Legal(w.d, SealProtocol.BootRun(p, actions, lost))
    ensures lost.None? && !SealProtocol.LosesKey(SealProtocol.BootRun(p, actions, lost))
  {
    hide SealProtocol.PolicyOf, SealProtocol.Exec, SealProtocol.Run;
  }
}
