/**
 Setting up the device-mapper device (src/dmctl.c): create, load the table,
 resume, and make the device node, each an `ioctl` or system call whose outcome
 is given. The steps that succeeded are recorded in order.
 */
module DmCtl {
  import opened Wrappers
  import opened CStrings
  import opened Numbers
  import opened Metadata
  import opened MetaParser

  const DM_NAME := "rootfs"
  const DM_NODE := "/dev/mapper/rootfs"
  const SECTOR: nat := 512

  /** Sizes of `struct dm_ioctl` and `struct dm_target_spec`, which the kernel defines. */
  datatype Layout = Layout(header: nat, spec: nat)

  /** A table as the kernel receives it: the bytes of the request and what they say. */
  datatype Request = Request(target: string, readOnly: bool, sectors: nat, table: string, dataStart: nat, dataSize: nat)

  datatype DmEvent =
    | Created(name: string, id: nat)
    | Loaded(id: nat, request: Request)
    | Resumed(id: nat)
    | NodeMade(path: string, id: nat, writable: bool)

  datatype DmAnswers = DmAnswers(openOk: bool, createOk: bool, devId: nat, loadOk: bool, resumeOk: bool, nodeOk: bool)

  /** The device-mapper target for the metadata; a verity device must be read-only. */
  function Target(crypt: CryptOpt, ro: bool): (t: Option<string>) {
    if crypt == VERITY then (if ro then Some("verity") else None)
    else if crypt == INTEGRITY then Some("integrity")
    else None
  }

  /**
   `stpncpy(dmTbl, table, size - 1)` and the terminator behind it: `end` is where the
   terminator is. A table that fits the buffer arrives whole.
   */
  method CopyTable(dmTbl: array<char>, table: string) returns (end: nat)
    requires dmTbl.Length == TABLE_SIZE && NUL !in table
    modifies dmTbl
    ensures end == (if |table| <= 1023 then |table| else 1023)
    ensures IsStr(dmTbl[..], 0, if |table| <= 1023 then table else table[..1023])
  {
    var _ := SnPrintF(dmTbl, 0, TABLE_SIZE, table);
    end := if |table| < TABLE_SIZE then |table| else TABLE_SIZE - 1;
  }

  /** The steps of a set-up in which everything succeeds. */
  function AllSteps(id: nat, request: Request): (s: seq<DmEvent>) {
    [Created(DM_NAME, id), Loaded(id, request), Resumed(id), NodeMade(DM_NODE, id, !request.readOnly)]
  }

  /** How many of the steps the answers allow. */
  function StepCount(answers: DmAnswers): (n: nat)
    ensures n <= 4
  {
    if !answers.openOk || !answers.createOk then 0
    else if !answers.loadOk then 1
    else if !answers.resumeOk then 2
    else if !answers.nodeOk then 3
    else 4
  }

  /**
   `cominitSetupDmDevice`: the steps made are those up to the first that fails. The request
   stays inside `cominitDmIoctlData_t` and hands over a table that fits as it is.
   */
  method SetupDmDevice(meta: RfsMeta, layout: Layout, answers: DmAnswers) returns (ok: bool, steps: seq<DmEvent>)
    requires NUL !in meta.table
    modifies meta`devicePath
    ensures var supported := (meta.crypt == 1 && meta.ro) || meta.crypt == 2;
            |steps| == if !supported || !answers.openOk || !answers.createOk then 0
                       else if !answers.loadOk then 1
                       else if !answers.resumeOk then 2
                       else if !answers.nodeOk then 3 else 4
    ensures ok <==> |steps| == 4
    ensures |steps| >= 1 ==> steps[0] == Created("rootfs", answers.devId)
    ensures |steps| >= 2 ==>
              var table := if |meta.table| <= 1023 then meta.table else meta.table[..1023];
              steps[1] == Loaded(answers.devId,
                                 Request(if meta.crypt == 1 then "verity" else "integrity", meta.ro,
                                         meta.dataSize / 512, table, layout.header,
                                         layout.header + layout.spec + |table| + 1))
    ensures |steps| >= 2 ==>
              var r := steps[1].request;
              && r.dataStart + layout.spec + |r.table| + 1 == r.dataSize <= layout.header + layout.spec + 1024
              && (r.table == meta.table <==> |meta.table| < 1024)
    ensures |steps| >= 3 ==> steps[2] == Resumed(answers.devId)
    ensures |steps| == 4 ==> steps[3] == NodeMade("/dev/mapper/rootfs", answers.devId, !meta.ro)
    ensures ok ==> meta.devicePath == "/dev/mapper/rootfs"
  {
    ok, steps := false, [];
    var target := Target(meta.crypt, meta.ro);
    if target.None? || !answers.openOk || !answers.createOk { return; }
    var devId := answers.devId;
    steps := [Created(DM_NAME, devId)];
    var dmTbl := new char[TABLE_SIZE](_ => NUL);
    var end := CopyTable(dmTbl, meta.table);
    var table := ReadStr(dmTbl, 0, Truncate(meta.table, TABLE_SIZE));
    var request := Request(target.value, meta.ro, meta.dataSize / SECTOR, table, layout.header,
                                         layout.header + layout.spec + end + 1);
    if !answers.loadOk { return; }
    steps := steps + [Loaded(devId, request)];
    if !answers.resumeOk { return; }
    steps := steps + [Resumed(devId)];
    meta.devicePath := DM_NODE;
    if !answers.nodeOk { return; }
    steps := steps + [NodeMade(DM_NODE, devId, !meta.ro)];
    ok := true;
  }

  /**
   The sectors loaded for decimal fields whose product fits 64 bits: the product in
   sectors, rounded down, and nothing is lost if the block size is whole sectors.
   */
  lemma VolumeSectors(blocks: string, size: string)
    requires IsDecimal(blocks) && IsDecimal(size) && Value(blocks, 10) * Value(size, 10) < TWO64
    ensures var n, b := Value(blocks, 10), Value(size, 10);
            && Product(blocks, size) / 512 == n * b / 512
            && (b % 512 == 0 ==> Product(blocks, size) / 512 * 512 == n * b)
  {
    VolumeSize(blocks, size);
    hide Product, Value;
    WholeSectors(Value(blocks, 10), Value(size, 10));
  }

  lemma WholeSectors(n: nat, b: nat)
    ensures b % SECTOR == 0 ==> n * b / SECTOR * SECTOR == n * b
  {
    if b % SECTOR == 0 {
      var k := b / SECTOR;
      assert n * b == (n * k) * SECTOR;
    }
  }
}
