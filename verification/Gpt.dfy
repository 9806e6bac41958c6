/**
 Finding a partition by its type GUID (src/automount.c:54-105 and 166-274): the
 scan of one partition table, laid out as in sections 5.3.2 and 5.3.3 of the UEFI
 Specification, and the scan of the devices under /dev.
 */
module Gpt {
  import opened Wrappers
  import opened CStrings
  import opened Numbers
  import opened Guid
  import opened MetaRegion
  import Metadata

  const MIN_ENTRY_SIZE: nat := 128

  /** The fields of `cominitGPTDisk_t` that the search uses, with the widths of the C types. */
  datatype Disk = Disk(name: string, blockSize: int, entriesLba: nat, entryCount: nat, entrySize: nat)

  predicate InRange(d: Disk) {
    -0x8000_0000 <= d.blockSize < 0x8000_0000 && d.entriesLba < TWO64 &&
    d.entryCount < 0x1_0000_0000 && d.entrySize < 0x1_0000_0000
  }

  /** What the system answers for one disk; `pread` gives the bytes of a complete read of one entry. */
  datatype Io = Io(openOk: bool, size: Option<nat>, mallocOk: bool, pread: int -> Option<seq<Byte>>)

  // ----- One partition table -----

  /** `entryOffsetBytes`: 64-bit arithmetic, which wraps around unnoticed. */
  function EntryOffset(d: Disk, i: nat): (off: nat)
    ensures off < TWO64
  {
    (d.entriesLba * (d.blockSize % TWO64) % TWO64 + i * d.entrySize) % TWO64
  }

  /** The offset is the true one exactly when the true one fits 64 bits. */
  lemma EntryOffsetExact(d: Disk, i: nat)
    requires InRange(d) && d.blockSize >= 0
    ensures EntryOffset(d, i) == d.entriesLba * d.blockSize + i * d.entrySize <==>
            d.entriesLba * d.blockSize + i * d.entrySize < TWO64
  {
    var a, b := d.entriesLba * d.blockSize, i * d.entrySize;
    assert a >= 0 && b >= 0;
    SumModulo(a, b, TWO64);
  }

  lemma SumModulo(a: nat, b: nat, m: nat)
    requires m > 0
    ensures (a % m + b) % m == a + b <==> a + b < m
  {
    if a + b < m {
      assert a % m == a;
    }
  }

  /** Wrapped around, an entry far behind the end of the disk is read from its beginning. */
  lemma WrappedEntry()
    ensures var d := Disk("/dev/sda", 512, TWO64 / 512, 1, 128);
            InRange(d) && d.entriesLba * d.blockSize + 0 * d.entrySize == TWO64 && EntryOffset(d, 0) == 0
  {
  }

  /** Entry `i` lies on the disk and can be read completely; `Raw` is its type GUID. */
  function TypeGuid(d: Disk, io: Io, size: nat, i: nat): (r: Option<Raw>) {
    if EntryOffset(d, i) > size then None
    else match io.pread(Signed64(EntryOffset(d, i)))
         case None => None
         case Some(bytes) => if |bytes| != d.entrySize || |bytes| < 16 then None else Some(bytes[..16])
  }

  predicate AllZero(raw: Raw) {
    forall b :: 0 <= b < 16 ==> raw[b] == 0
  }

  /** An entry of the wanted type; unused entries never match. */
  predicate Wanted(raw: Raw, guidType: string) {
    !AllZero(raw) && SameText(FormatGuid(raw), guidType)
  }

  /** The entry loop from entry `i` on. */
  function Scan(d: Disk, io: Io, size: nat, guidType: string, i: nat): (r: Option<nat>)
    decreases d.entryCount - i
  {
    if i >= d.entryCount then None
    else match TypeGuid(d, io, size, i)
         case None => None
         case Some(raw) => if Wanted(raw, guidType) then Some(i) else Scan(d, io, size, guidType, i + 1)
  }

  /** Entry `i` is the first of the wanted type, and everything up to it could be read. */
  ghost predicate FirstMatch(d: Disk, io: Io, size: nat, guidType: string, i: nat) {
    && i < d.entryCount
    && (forall j: nat :: j <= i ==> TypeGuid(d, io, size, j).Some?)
    && (forall j: nat :: j < i ==> !Wanted(TypeGuid(d, io, size, j).value, guidType))
    && Wanted(TypeGuid(d, io, size, i).value, guidType)
  }

  /** The scan finds the first match, and finds something whenever there is one. */
  lemma {:induction false} ScanFindsFirst(d: Disk, io: Io, size: nat, guidType: string, i: nat, k: nat)
    requires forall j: nat :: j < i ==>
               TypeGuid(d, io, size, j).Some? && !Wanted(TypeGuid(d, io, size, j).value, guidType)
    ensures Scan(d, io, size, guidType, i) == Some(k) <==> i <= k && FirstMatch(d, io, size, guidType, k)
    decreases d.entryCount - i
  {
    hide Wanted, TypeGuid;
    if i >= d.entryCount {
    } else {
      var r := TypeGuid(d, io, size, i);
      if r.Some? && !Wanted(r.value, guidType) {
        ScanFindsFirst(d, io, size, guidType, i + 1, k);
        assert FirstMatch(d, io, size, guidType, k) ==> k != i;
      } else if r.Some? {
        assert FirstMatch(d, io, size, guidType, k) && i <= k ==> k == i;
      } else {
        assert FirstMatch(d, io, size, guidType, k) ==> k < i;
      }
    }
  }

  /** The disk can be scanned at all. */
  predicate Scannable(d: Disk, io: Io) {
    && d.name != "" && io.openOk && io.size.Some? && io.mallocOk
    && MIN_ENTRY_SIZE <= d.entrySize <= io.size.value
  }

  /** Result of `cominitAutomountFindPartitionOnDisk`. */
  function OnDisk(d: Disk, io: Io, guidType: string, room: nat): (r: Option<string>) {
    if !Scannable(d, io) || room == 0 then None
    else match Scan(d, io, io.size.value, guidType, 0)
         case None => None
         case Some(i) => PartitionNode(d.name, i + 1, room)
  }

  /**
   The disk scan yields a node exactly when the disk can be scanned, there is a first
   matching entry, and the node is that of its index plus one and fits.
   */
  lemma OnDiskMeaning(d: Disk, io: Io, guidType: string, room: nat, node: string)
    ensures OnDisk(d, io, guidType, room) == Some(node) <==>
            && room > 0 && Scannable(d, io)
            && exists i: nat :: FirstMatch(d, io, io.size.value, guidType, i)
                                && PartitionNode(d.name, i + 1, room) == Some(node)
  {
    hide FirstMatch, PartitionNode;
    if room > 0 && Scannable(d, io) {
      forall i: nat
        ensures Scan(d, io, io.size.value, guidType, 0) == Some(i) <==> FirstMatch(d, io, io.size.value, guidType, i)
      {
        ScanFindsFirst(d, io, io.size.value, guidType, 0, i);
      }
    }
  }

  /** Where entry `i` is, in unbounded arithmetic. */
  function EntryAt(d: Disk, i: nat): (off: nat)
    requires d.blockSize >= 0
  {
    assert i * d.entrySize >= 0 && d.entriesLba * d.blockSize >= 0;
    d.entriesLba * d.blockSize + i * d.entrySize
  }

  /** The type GUID of the entry that is really number `i`. */
  function TrueTypeGuid(d: Disk, io: Io, size: nat, i: nat): (r: Option<Raw>)
    requires d.blockSize >= 0 && EntryAt(d, i) < TWO64
  {
    if EntryAt(d, i) > size then None
    else match io.pread(Signed64(EntryAt(d, i)))
         case None => None
         case Some(bytes) => if |bytes| != d.entrySize || |bytes| < 16 then None else Some(bytes[..16])
  }

  /** The whole table lies below 2^64. */
  predicate TableFits(d: Disk) {
    InRange(d) && d.blockSize >= 0 && forall i: nat :: i < d.entryCount ==> EntryAt(d, i) < TWO64
  }

  /** `FirstMatch` for the entries where they really are. */
  ghost predicate TrueFirstMatch(d: Disk, io: Io, size: nat, guidType: string, i: nat)
    requires TableFits(d)
  {
    && i < d.entryCount
    && (forall j: nat :: j <= i ==> TrueTypeGuid(d, io, size, j).Some?)
    && (forall j: nat :: j < i ==> !Wanted(TrueTypeGuid(d, io, size, j).value, guidType))
    && Wanted(TrueTypeGuid(d, io, size, i).value, guidType)
  }

  /** A table below 2^64 is one whose end is. */
  lemma TableEnd(d: Disk)
    requires InRange(d) && d.blockSize >= 0 && EntryAt(d, d.entryCount) < TWO64
    ensures TableFits(d)
  {
    forall i: nat | i < d.entryCount ensures EntryAt(d, i) < TWO64 {
      EntriesGrow(i, d.entryCount, d.entrySize);
    }
  }

  lemma EntriesGrow(i: nat, n: nat, size: nat)
    requires i <= n
    ensures i * size <= n * size
  {
  }

  lemma SameFirstMatch(d: Disk, io: Io, size: nat, guidType: string, i: nat)
    requires TableFits(d)
    ensures FirstMatch(d, io, size, guidType, i) <==> TrueFirstMatch(d, io, size, guidType, i)
  {
    hide Wanted, EntryOffset;
    forall j: nat | j < d.entryCount ensures TypeGuid(d, io, size, j) == TrueTypeGuid(d, io, size, j) {
      EntryOffsetExact(d, j);
    }
    hide TypeGuid, TrueTypeGuid;
  }

  /** If the table lies below 2^64, the match is the first one among the entries where they really are. */
  lemma OnDiskAtTrueOffsets(d: Disk, io: Io, guidType: string, room: nat, node: string)
    requires TableFits(d)
    ensures OnDisk(d, io, guidType, room) == Some(node) <==>
            && room > 0 && Scannable(d, io)
            && exists i: nat :: TrueFirstMatch(d, io, io.size.value, guidType, i)
                                && PartitionNode(d.name, i + 1, room) == Some(node)
  {
    hide FirstMatch, TrueFirstMatch, PartitionNode, TableFits;
    OnDiskMeaning(d, io, guidType, room, node);
    if Scannable(d, io) {
      forall i: nat
        ensures FirstMatch(d, io, io.size.value, guidType, i) <==> TrueFirstMatch(d, io, io.size.value, guidType, i)
      {
        SameFirstMatch(d, io, io.size.value, guidType, i);
      }
    }
    hide OnDisk, Scannable;
  }

  /** An entry is wanted exactly if its bytes are the one value that the text stands for. */
  lemma WantedIsType(raw: Raw, t: string)
    requires Canonical(t) && exists b :: 0 <= b < 16 && ParseGuid(t)[b] != 0
    ensures Wanted(raw, t) <==> raw == ParseGuid(t)
  {
    MatchesExactlyOne(raw, t);
    hide FormatGuid, ParseGuid, Lower, Canonical;
  }

  /** An unused entry, which is all zero, is never wanted. */
  lemma UnusedIsNotWanted(raw: Raw, t: string)
    requires forall b :: 0 <= b < 16 ==> raw[b] == 0
    ensures !Wanted(raw, t)
  {
  }

  /** Entry `i` lies on the disk and can be read completely. */
  predicate EntryOk(d: Disk, io: Io, i: nat)
    requires d.blockSize >= 0 && io.size.Some?
  {
    var off := d.entriesLba * d.blockSize + i * d.entrySize;
    off <= io.size.value && io.pread(off).Some? && |io.pread(off).value| == d.entrySize >= 128
  }

  /** Entry `i` is the least one that starts with `raw`, and it and all before it can be read. */
  ghost predicate LeastEntry(d: Disk, io: Io, raw: Raw, i: nat)
    requires d.blockSize >= 0 && io.size.Some?
  {
    && i < d.entryCount && (forall j: nat :: j <= i ==> EntryOk(d, io, j))
    && EntryOk(d, io, i) && TypeBytes(d, io, i) == raw
    && (forall j: nat :: j < i ==> TypeBytes(d, io, j) != raw)
  }

  function TypeBytes(d: Disk, io: Io, i: nat): (bytes: seq<Byte>)
    requires d.blockSize >= 0 && io.size.Some? && EntryOk(d, io, i)
  {
    io.pread(d.entriesLba * d.blockSize + i * d.entrySize).value[..16]
  }

  lemma TypeOfEntry(d: Disk, io: Io, i: nat)
    requires TableFits(d) && i < d.entryCount && io.size.Some? && io.size.value < 0x8000_0000_0000_0000
    requires d.entrySize >= 128
    ensures TrueTypeGuid(d, io, io.size.value, i) == if EntryOk(d, io, i) then Some(TypeBytes(d, io, i)) else None
  {
  }

  lemma LeastIsFirst(d: Disk, io: Io, t: string, i: nat)
    requires TableFits(d) && Canonical(t) && exists b :: 0 <= b < 16 && ParseGuid(t)[b] != 0
    requires io.size.Some? && io.size.value < 0x8000_0000_0000_0000 && d.entrySize >= 128
    ensures LeastEntry(d, io, ParseGuid(t), i) <==> TrueFirstMatch(d, io, io.size.value, t, i)
  {
    hide Canonical, ParseGuid, Wanted, TrueTypeGuid;
    if i < d.entryCount {
      forall j: nat | j <= i
        ensures TrueTypeGuid(d, io, io.size.value, j) == if EntryOk(d, io, j) then Some(TypeBytes(d, io, j)) else None
        ensures EntryOk(d, io, j) ==> (Wanted(TypeBytes(d, io, j), t) <==> TypeBytes(d, io, j) == ParseGuid(t))
      {
        TypeOfEntry(d, io, j);
        if EntryOk(d, io, j) { WantedIsType(TypeBytes(d, io, j), t); }
      }
      hide EntryOk, TypeBytes, TableFits;
    }
  }

  /**
   On a disk below 2^63 bytes with its table below 2^64, for a type that is not all zero: the
   node found is that of the least entry whose first sixteen bytes are the type, with it and
   all entries before it on the disk and readable, numbered from one, if its name fits.
   */
  lemma FindsLeastEntry(d: Disk, io: Io, t: string, room: nat, node: string)
    requires TableFits(d) && Canonical(t) && exists b :: 0 <= b < 16 && ParseGuid(t)[b] != 0
    requires io.size.Some? ==> io.size.value < 0x8000_0000_0000_0000
    ensures OnDisk(d, io, t, room) == Some(node) <==>
            && room > 0 && d.name != "" && io.openOk && io.mallocOk
            && io.size.Some? && 128 <= d.entrySize <= io.size.value
            && exists i: nat :: LeastEntry(d, io, ParseGuid(t), i)
                                && |NodeName(d.name, i + 1)| < room && node == NodeName(d.name, i + 1)
  {
    hide Canonical, ParseGuid, NodeName, OnDisk, LeastEntry, TrueFirstMatch;
    OnDiskAtTrueOffsets(d, io, t, room, node);
    if Scannable(d, io) {
      forall i: nat
        ensures LeastEntry(d, io, ParseGuid(t), i) <==> TrueFirstMatch(d, io, io.size.value, t, i)
      {
        LeastIsFirst(d, io, t, i);
      }
    }
  }

  /** What the scan leaves in the caller's name buffer: a node that does not fit is left there cut. */
  function NodeBuffer(d: Disk, io: Io, guidType: string, room: nat, buf: string): (left: string)
    ensures OnDisk(d, io, guidType, room).Some? ==> left == OnDisk(d, io, guidType, room).value
  {
    if !Scannable(d, io) || room == 0 then buf
    else match Scan(d, io, io.size.value, guidType, 0)
         case None => buf
         case Some(i) => Metadata.Truncate(NodeName(d.name, i + 1), room)
  }

  /** The byte loop that looks for a non-zero byte in the type GUID. */
  method IsAllZero(raw: Raw) returns (zero: bool)
    ensures zero == AllZero(raw)
  {
    var b := 0;
    while b < 16
      invariant 0 <= b <= 16 && forall k :: 0 <= k < b ==> raw[k] == 0
    {
      if raw[b] != 0 { return false; }
      b := b + 1;
    }
    return true;
  }

  /** `cominitAutomountFindPartitionOnDisk`. */
  method FindPartitionOnDisk(d: Disk, io: Io, guidType: string, room: nat, buf: string)
    returns (r: Option<string>, left: string)
    ensures r == OnDisk(d, io, guidType, room) && left == NodeBuffer(d, io, guidType, room, buf)
  {
    hide FormatGuid, Lower, TypeGuid, NodeName;
    r, left := None, buf;
    if d.name == "" || room == 0 || !io.openOk || io.size.None? { return; }
    var size := io.size.value;
    if d.entrySize < MIN_ENTRY_SIZE || d.entrySize > size || !io.mallocOk { return; }
    var i := 0;
    while i < d.entryCount
      invariant 0 <= i
      invariant Scan(d, io, size, guidType, i) == Scan(d, io, size, guidType, 0)
      decreases d.entryCount - i
    {
      var raw := TypeGuid(d, io, size, i);
      if raw.None? { return; }
      var zero := IsAllZero(raw.value);
      if !zero && SameText(FormatGuid(raw.value), guidType) {
        r, left := BuildPartitionNode(d.name, i + 1, room);
        return;
      }
      i := i + 1;
    }
  }

  /** `cominitAutomountBuildPartitionNode`. */
  method BuildPartitionNode(disk: string, idx: nat, room: nat) returns (r: Option<string>, left: string)
    requires room > 0
    ensures r == PartitionNode(disk, idx, room) && left == Metadata.Truncate(NodeName(disk, idx), room)
    ensures var text := if disk != "" && '0' <= disk[|disk| - 1] <= '9' then disk + "p" + Decimal(idx)
                        else disk + Decimal(idx);
            && r == (if |text| < room then Some(text) else None)
            && left == (if |text| < room then text else text[..room - 1])
  {
    var endsWithDigit := |disk| > 0 && IsDecimalDigit(disk[|disk| - 1]);
    var text := if endsWithDigit then disk + "p" + Decimal(idx) else disk + Decimal(idx);
    left := Metadata.Truncate(text, room);
    r := if |text| >= room then None else Some(left);
  }

  // ----- The devices under /dev -----

  datatype Kind = Missing | Link | Block | Other

  /** What the system answers for the device called `name`. */
  datatype DeviceIo = DeviceIo(kind: Kind, openOk: bool, blockSize: Option<int>, header: Option<(string, Disk)>, io: Io)

  predicate Blacklisted(name: string) {
    "loop" <= name || "zram" <= name || "dm-" <= name || "md" <= name || "sr" <= name || "ram" <= name
  }

  /** Entries that are looked at: not hidden, not blacklisted, and block devices. */
  predicate Eligible(name: string, dev: DeviceIo) {
    !("." <= name) && !Blacklisted(name) && dev.kind == Block
  }

  /** `cominitAutomountFindGpt`: the disk behind a device, if its header carries the GPT signature. */
  function FindGpt(name: string, dev: DeviceIo): (r: Option<Disk>) {
    if !dev.openOk || dev.blockSize.None? || dev.header.None? || dev.header.value.0 != "EFI PART" then None
    else Some(dev.header.value.1.(name := "/dev/" + name, blockSize := dev.blockSize.value))
  }

  /** What a directory entry yields. */
  function OnDevice(name: string, dev: DeviceIo, guidType: string, room: nat): (r: Option<(Disk, string)>) {
    if !Eligible(name, dev) then None
    else match FindGpt(name, dev)
         case None => None
         case Some(d) =>
           match OnDisk(d, dev.io, guidType, room)
           case None => None
           case Some(node) => Some((d, node))
  }

  /**
   A directory entry yields something exactly when it is not hidden, not of one of six kinds,
   a block device whose header carries the GPT signature, and the scan of that disk does.
   */
  lemma OnDeviceMeaning(name: string, dev: DeviceIo, guidType: string, room: nat, d: Disk, node: string)
    ensures OnDevice(name, dev, guidType, room) == Some((d, node)) <==>
            && !("." <= name) && !("loop" <= name) && !("zram" <= name) && !("dm-" <= name)
            && !("md" <= name) && !("sr" <= name) && !("ram" <= name)
            && dev.kind == Block && dev.openOk && dev.blockSize.Some?
            && dev.header.Some? && dev.header.value.0 == "EFI PART"
            && d == dev.header.value.1.(name := "/dev/" + name, blockSize := dev.blockSize.value)
            && OnDisk(d, dev.io, guidType, room) == Some(node)
  {
    hide OnDisk;
  }

  /** The first `k` directory entries yield nothing. */
  predicate Fruitless(entries: seq<(string, DeviceIo)>, k: nat, guidType: string, room: nat)
    requires k <= |entries|
  {
    forall j :: 0 <= j < k ==> OnDevice(entries[j].0, entries[j].1, guidType, room).None?
  }

  /** What the first entry that yields anything yields. */
  function Search(entries: seq<(string, DeviceIo)>, guidType: string, room: nat): (r: Option<(Disk, string)>) {
    if entries == [] then None
    else
      var r := OnDevice(entries[0].0, entries[0].1, guidType, room);
      if r.Some? then r else Search(entries[1..], guidType, room)
  }

  /** What one directory entry leaves in the name buffer. */
  function DeviceBuffer(name: string, dev: DeviceIo, guidType: string, room: nat, buf: string): (left: string)
    ensures OnDevice(name, dev, guidType, room).Some? ==> left == OnDevice(name, dev, guidType, room).value.1
  {
    if !Eligible(name, dev) || FindGpt(name, dev).None? then buf
    else NodeBuffer(FindGpt(name, dev).value, dev.io, guidType, room, buf)
  }

  /** What all of them leave there, up to the first that yields something. */
  function SearchBuffer(entries: seq<(string, DeviceIo)>, guidType: string, room: nat, buf: string): (left: string)
    ensures Search(entries, guidType, room).Some? ==> left == Search(entries, guidType, room).value.1
  {
    if entries == [] then buf
    else
      var left := DeviceBuffer(entries[0].0, entries[0].1, guidType, room, buf);
      if OnDevice(entries[0].0, entries[0].1, guidType, room).Some? then left
      else SearchBuffer(entries[1..], guidType, room, left)
  }

  /** Entries that yield nothing do not matter. */
  lemma {:induction false} SearchSkips(entries: seq<(string, DeviceIo)>, k: nat, guidType: string, room: nat)
    requires k <= |entries| && Fruitless(entries, k, guidType, room)
    ensures Search(entries, guidType, room) == Search(entries[k..], guidType, room)
  {
    hide OnDevice;
    if k == 0 {
      assert entries[0..] == entries;
    } else {
      forall j | 0 <= j < k - 1
        ensures OnDevice(entries[1..][j].0, entries[1..][j].1, guidType, room).None?
      {
        assert entries[1..][j] == entries[j + 1];
      }
      SearchSkips(entries[1..], k - 1, guidType, room);
      assert entries[1..][k - 1..] == entries[k..];
    }
  }

  /** A node found under /dev is one of a device there, whose name it carries. */
  lemma {:induction false} FoundIsText(entries: seq<(string, DeviceIo)>, guidType: string, room: nat)
    requires forall k :: 0 <= k < |entries| ==> NUL !in entries[k].0
    ensures Search(entries, guidType, room).Some? ==> NUL !in Search(entries, guidType, room).value.1
  {
    hide Scan;
    if entries == [] {
    } else {
      FoundIsText(entries[1..], guidType, room);
      var d := FindGpt(entries[0].0, entries[0].1);
      if d.Some? {
        assert NUL !in d.value.name;
      }
    }
  }

  /** Longest name whose path fits, with its terminator, into the 256 bytes of `diskName`. */
  const NAME_MAX: nat := 250

  /** The caller's `cominitGPTDisk_t`. */
  class GptDisk {
    var disk: Disk
    constructor (d: Disk)
      ensures disk == d
    {
      disk := d;
    }
  }

  /**
   `cominitAutomountFindPartition` over the entries of /dev in directory order: the
   first entry that yields a partition decides, and only then the disk is stored.
   */
  method FindPartition(gptDisk: GptDisk, entries: Option<seq<(string, DeviceIo)>>, guidType: string, room: nat,
                       buf: string)
    returns (r: Option<string>, left: string)
    requires entries.Some? ==> forall k :: 0 <= k < |entries.value| ==> |entries.value[k].0| <= NAME_MAX
    modifies gptDisk
    ensures r.None? ==> gptDisk.disk == old(gptDisk.disk)
    ensures r.None? <==> (entries.None? || room == 0 || Fruitless(entries.value, |entries.value|, guidType, room))
    ensures r.Some? ==>
              exists k :: 0 <= k < |entries.value|
                && (forall j :: 0 <= j < k ==> OnDevice(entries.value[j].0, entries.value[j].1, guidType, room).None?)
                && OnDevice(entries.value[k].0, entries.value[k].1, guidType, room) == Some((gptDisk.disk, r.value))
    ensures r.Some? ==> Search(entries.value, guidType, room) == Some((gptDisk.disk, r.value))
    ensures r.None? && entries.Some? && room > 0 ==> Search(entries.value, guidType, room).None?
    ensures left == if entries.None? || room == 0 then buf else SearchBuffer(entries.value, guidType, room, buf)
  {
    hide OnDisk, NodeBuffer;
    r, left := None, buf;
    if entries.None? || room == 0 { return; }
    var k := 0;
    assert entries.value[0..] == entries.value;
    while k < |entries.value|
      invariant 0 <= k <= |entries.value| && r.None? && gptDisk.disk == old(gptDisk.disk)
      invariant Fruitless(entries.value, k, guidType, room)
      invariant SearchBuffer(entries.value[k..], guidType, room, left) ==
                SearchBuffer(entries.value, guidType, room, buf)
    {
      assert entries.value[k..][1..] == entries.value[k + 1..];
      var (name, dev) := entries.value[k];
      if Eligible(name, dev) {
        var probe := FindGpt(name, dev);
        if probe.Some? {
          r, left := FindPartitionOnDisk(probe.value, dev.io, guidType, room, left);
          if r.Some? {
            gptDisk.disk := probe.value;
            SearchSkips(entries.value, k, guidType, room);
            return;
          }
        }
      }
      k := k + 1;
    }
    SearchSkips(entries.value, k, guidType, room);
  }
}
