/**
 The metadata region, the last 4096 bytes of the partition (src/meta.c:75-142):
 where it lies, how it is read and framed, and the metadata that was signed.
 */
module MetaRegion {
  import opened Wrappers
  import opened CStrings
  import opened Numbers
  import opened Metadata
  import opened MetaParser

  const REGION_SIZE: nat := 4096
  const SIG_LENGTH: nat := 512
  const TWO63: nat := 0x8000_0000_0000_0000

  /** `uint64_t` bits read as `off_t`. */
  function Signed64(n: nat): (z: int)
    requires n < TWO64
  {
    if n < TWO63 then n else n - TWO64
  }

  /** `(off_t)(partSize - 4096)` in 64-bit arithmetic. */
  function MetadataOffset(partSize: nat): (z: int)
    requires partSize < TWO64
  {
    Signed64((partSize - REGION_SIZE) % TWO64)
  }

  /**
   The test for a negative offset turns away every partition smaller than the
   region, whose size wrapped around, and otherwise the offset is the true one.
   */
  lemma OffsetTest(partSize: nat)
    requires partSize < TWO64
    ensures MetadataOffset(partSize) >= 0 <==> 4096 <= partSize < 0x8000_0000_0000_1000
    ensures MetadataOffset(partSize) >= 0 ==> MetadataOffset(partSize) == partSize - 4096
  {
    if partSize < REGION_SIZE {
      assert (partSize - REGION_SIZE) % TWO64 == partSize - REGION_SIZE + TWO64;
    } else {
      assert (partSize - REGION_SIZE) % TWO64 == partSize - REGION_SIZE;
    }
  }

  // ----- Reading the region -----

  /** How the read loop ended; `Waiting` if it still asks for more when the results given run out. */
  datatype ReadOutcome = Done | Failed | Waiting

  /**
   The read loop of `cominitBinReadall` for given results of `read`, with `len` bytes of
   the region still to come: each read is stored at the START of the buffer.
   */
  function ReadAll(region: seq<char>, buf: seq<char>, results: seq<int>, len: nat): (r: (ReadOutcome, seq<char>))
    requires len <= |region| == |buf|
    ensures |r.1| == |buf|
    decreases |results|
  {
    if len == 0 then (Done, buf)
    else if results == [] then (Waiting, buf)
    else if results[0] < 0 then (Failed, buf)
    else
      var n := if results[0] < len then results[0] else len;
      var from := |region| - len;
      ReadAll(region, region[from..from + n] + buf[n..], results[1..], len - n)
  }

  /** `cominitBinReadall`, for the given results of `read`. */
  method BinReadAll(buf: array<char>, region: seq<char>, results: seq<int>) returns (outcome: ReadOutcome)
    requires |region| == buf.Length
    modifies buf
    ensures (outcome, buf[..]) == ReadAll(region, old(buf[..]), results, |region|)
  {
    var len := |region|;
    var i := 0;
    while len > 0
      invariant 0 <= i <= |results| && 0 <= len <= |region|
      invariant ReadAll(region, buf[..], results[i..], len) == ReadAll(region, old(buf[..]), results, |region|)
      decreases |results| - i
    {
      if i == |results| { return Waiting; }
      if results[i] < 0 { return Failed; }
      ghost var mem := buf[..];
      var n := if results[i] < len then results[i] else len;
      var from := |region| - len;
      forall k | 0 <= k < n { buf[k] := region[from + k]; }
      assert buf[..] == region[from..from + n] + mem[n..];
      assert results[i..][1..] == results[i + 1..];
      len, i := len - n, i + 1;
    }
    return Done;
  }

  /** Some read, with only empty ones before it, delivers the whole region. */
  predicate OneRead(results: seq<int>, len: nat) {
    results != [] && (results[0] >= len || (results[0] == 0 && OneRead(results[1..], len)))
  }

  // ----- When the read loop ends -----

  function Sum(ns: seq<int>): (n: int) {
    if ns == [] then 0 else ns[0] + Sum(ns[1..])
  }

  /** No result is an error. */
  predicate NoErrors(results: seq<int>) {
    forall i :: 0 <= i < |results| ==> results[i] >= 0
  }

  /** Some results from the start, without an error among them, add up to `len` or more. */
  ghost predicate Delivered(results: seq<int>, len: nat) {
    exists k :: 0 <= k <= |results| && NoErrors(results[..k]) && Sum(results[..k]) >= len
  }

  lemma DeliveredStep(results: seq<int>, len: nat)
    requires len > 0 && results != [] && results[0] >= 0
    ensures Delivered(results, len) <==> Delivered(results[1..], if results[0] < len then len - results[0] else 0)
  {
    var n := if results[0] < len then results[0] else len;
    if k :| 0 <= k <= |results| && NoErrors(results[..k]) && Sum(results[..k]) >= len {
      if results[0] < len {
        assert k > 0 && results[..k][1..] == results[1..][..k - 1];
        var rest, all := results[1..][..k - 1], results[..k];
        assert forall i :: 0 <= i < |rest| ==> rest[i] == all[i + 1];
      } else {
        assert results[1..][..0] == [];
      }
    }
    if k :| 0 <= k <= |results| - 1 && NoErrors(results[1..][..k]) && Sum(results[1..][..k]) >= len - n {
      if results[0] < len {
        assert results[..k + 1][1..] == results[1..][..k];
        var rest, all := results[1..][..k], results[..k + 1];
        assert forall i :: 0 < i < |all| ==> all[i] == rest[i - 1];
        assert NoErrors(results[..k + 1]);
      } else {
        assert results[..1][1..] == [];
        assert NoErrors(results[..1]) && Sum(results[..1]) == results[0];
      }
    }
  }

  /**
   The loop succeeds exactly when enough is delivered before the first error; it is still
   waiting exactly when there was no error and not enough; otherwise it has failed.
   */
  lemma {:induction false} LoopEndsIff(region: seq<char>, buf: seq<char>, results: seq<int>, len: nat)
    requires len <= |region| == |buf|
    ensures ReadAll(region, buf, results, len).0.Done? <==> Delivered(results, len)
    ensures ReadAll(region, buf, results, len).0.Waiting? <==> NoErrors(results) && !Delivered(results, len)
    decreases |results|
  {
    if len == 0 {
      assert results[..0] == [];
    } else if results == [] || results[0] < 0 {
      assert forall k :: 0 < k <= |results| ==> results[..k][0] == results[0];
    } else {
      var n := if results[0] < len then results[0] else len;
      var from := |region| - len;
      LoopEndsIff(region, region[from..from + n] + buf[n..], results[1..], len - n);
      DeliveredStep(results, len);
      assert forall i :: 0 < i < |results| ==> results[i] == results[1..][i - 1];
      assert NoErrors(results) <==> NoErrors(results[1..]);
    }
  }

  /** Reads that each bring something deliver everything in time. */
  lemma {:induction false} ProgressEnds(results: seq<int>, len: nat)
    requires |results| >= len && forall i :: 0 <= i < |results| ==> results[i] >= 1
    ensures Delivered(results, len)
    decreases |results|
  {
    if len == 0 {
      assert results[..0] == [];
    } else {
      ProgressEnds(results[1..], if results[0] < len then len - results[0] else 0);
      DeliveredStep(results, len);
    }
  }

  /**
   When enough is delivered, the buffer holds the region if one read brought it all. A region
   whose first byte does not occur again is there only then.
   */
  lemma {:induction false} ReadAllExact(region: seq<char>, results: seq<int>, buf: seq<char>)
    requires |buf| == |region| > 0 && Delivered(results, |region|)
    ensures OneRead(results, |region|) ==> ReadAll(region, buf, results, |region|).1 == region
    ensures region[0] !in region[1..] ==>
              (ReadAll(region, buf, results, |region|).1 == region <==> OneRead(results, |region|))
    decreases |results|
  {
    LoopEndsIff(region, buf, results, |region|);
    if results[0] >= |region| {
      assert region[0..|region|] + buf[|region|..] == region;
    } else if results[0] == 0 {
      assert region[0..0] + buf[0..] == buf;
      DeliveredStep(results, |region|);
      ReadAllExact(region, results[1..], buf);
    } else {
      var next := region[0..results[0]] + buf[results[0]..];
      FirstByteIsLater(region, results[1..], next, |region| - results[0]);
    }
  }

  /** After a short read the first byte of the buffer comes from further behind. */
  lemma {:induction false} FirstByteIsLater(region: seq<char>, results: seq<int>, buf: seq<char>, len: nat)
    requires |buf| == |region| && len < |region| && (len == 0 ==> buf[0] in region[1..])
    requires ReadAll(region, buf, results, len).0.Done?
    ensures ReadAll(region, buf, results, len).1[0] in region[1..]
    decreases |results|
  {
    if len == 0 {
    } else {
      var n := if results[0] < len then results[0] else len;
      var from := |region| - len;
      var next := region[from..from + n] + buf[n..];
      if n > 0 {
        assert next[0] == region[from] == region[1..][from - 1];
      }
      FirstByteIsLater(region, results[1..], next, len - n);
    }
  }

  // ----- Framing -----

  /** The data in front of the first NUL and the signature behind it, if there is room for one. */
  datatype Framed = Framed(data: string, signature: string)

  function Frame(region: seq<char>): (r: Option<Framed>)
    requires |region| == REGION_SIZE
  {
    var n := CSpan(region, {NUL});
    if n >= REGION_SIZE - SIG_LENGTH - 1 then None
    else Some(Framed(region[..n], region[n + 1..n + 1 + SIG_LENGTH]))
  }

  /**
   The two ranges the signature check is given are adjacent, disjoint and inside
   the region: NUL-free data, terminator and signature make up its beginning; and
   every region of that form with at most 3582 bytes of data is framed so.
   */
  lemma FrameRanges(region: seq<char>, f: Framed)
    requires |region| == 4096
    ensures Frame(region) == Some(f) <==>
            && '\0' !in f.data && |f.data| <= 3582 && |f.signature| == 512
            && f.data + ['\0'] + f.signature <= region
  {
    CSpanProps(region, {NUL});
    if NUL !in f.data && f.data + [NUL] + f.signature <= region {
      var all := f.data + [NUL] + f.signature;
      assert forall i :: 0 <= i < |f.data| ==> region[i] == all[i] == f.data[i];
      assert region[|f.data|] == all[|f.data|] == NUL;
      CSpanUnique(region, {NUL}, |f.data|);
      assert region[..|f.data|] == all[..|f.data|] == f.data;
      assert region[|f.data| + 1..|all|] == all[|f.data| + 1..] == f.signature;
    }
  }

  /** The metadata of a region: framed, its signature accepted, and parsed. */
  function Load(region: seq<char>, verify: (string, string) -> bool, dev: string, keyring: Keyring): (r: Option<Meta>)
    requires |region| == REGION_SIZE
  {
    match Frame(region)
    case None => None
    case Some(f) =>
      if verify(f.data + [NUL], f.signature) then Parse(f.data, dev, keyring) else None
  }

  /** What the environment answers while the metadata is loaded. */
  datatype Partition = Partition(
    openOk: bool, size: Option<nat>, seekOk: bool, region: seq<char>, results: seq<int>)

  /** The buffer after reading, if the region could be read at all. */
  function ReadRegion(part: Partition): (r: Option<seq<char>>)
    ensures r.Some? ==> |r.value| == REGION_SIZE
  {
    if !part.openOk || part.size.None? || part.size.value >= TWO64 || |part.region| != REGION_SIZE
       || MetadataOffset(part.size.value) < 0 || !part.seekOk then None
    else
      var (outcome, buf) := ReadAll(part.region, seq(REGION_SIZE, _ => NUL), part.results, REGION_SIZE);
      if outcome.Done? then Some(buf) else None
  }

  /**
   The region can be read exactly when the partition opens, has a size that leaves room for
   the region, can be sought in, and the reads deliver enough; the buffer is what they leave.
   */
  lemma ReadRegionMeaning(part: Partition)
    requires |part.region| == 4096 && (part.size.Some? ==> part.size.value < 0x1_0000_0000_0000_0000)
    ensures ReadRegion(part).Some? <==>
            && part.openOk && part.size.Some? && 4096 <= part.size.value < 0x8000_0000_0000_1000 && part.seekOk
            && Delivered(part.results, 4096)
    ensures ReadRegion(part).Some? ==>
              ReadRegion(part).value == ReadAll(part.region, seq(4096, _ => '\0'), part.results, 4096).1
  {
    if part.size.Some? { OffsetTest(part.size.value); }
    LoopEndsIff(part.region, seq(REGION_SIZE, _ => NUL), part.results, REGION_SIZE);
    hide MetadataOffset, ReadAll, Delivered;
  }

  /**
   `cominitLoadVerifyMetadata`: the metadata in the structure was parsed from exactly the
   bytes whose signature was accepted. Returns those bytes and the signature.
   */
  method LoadVerifyMetadata(meta: RfsMeta, part: Partition, verify: (string, string) -> bool, keyring: Keyring)
    returns (framed: Option<Framed>)
    requires Bounded(keyring)
    modifies meta
    ensures meta.devicePath == old(meta.devicePath)
    ensures framed.Some? <==> && ReadRegion(part).Some?
                              && Load(ReadRegion(part).value, verify, meta.devicePath, keyring).Some?
    ensures framed.Some? ==>
              var buf := ReadRegion(part).value;
              && framed == Frame(buf) && verify(framed.value.data + [NUL], framed.value.signature)
              && Parse(framed.value.data, meta.devicePath, keyring).Some?
              && var m := Parse(framed.value.data, meta.devicePath, keyring).value;
              && Settings(meta.fsType, meta.ro, meta.crypt) == m.settings
              && (m.table.Some? ==> Table(meta.table, meta.dataSize) == m.table.value)
              && Holds(meta, m, old(meta.dataSize))
  {
    framed := None;
    if !part.openOk || part.size.None? || part.size.value >= TWO64 || |part.region| != REGION_SIZE { return; }
    if MetadataOffset(part.size.value) < 0 || !part.seekOk { return; }
    var metabuf := new char[REGION_SIZE](_ => NUL);
    assert metabuf[..] == seq(REGION_SIZE, _ => NUL);
    var outcome := BinReadAll(metabuf, part.region, part.results);
    if outcome != Done { return; }
    framed := VerifyAndParse(meta, metabuf, verify, keyring);
  }

  /** The part behind the reading: frame, check the signature, parse in place. */
  method VerifyAndParse(meta: RfsMeta, metabuf: array<char>, verify: (string, string) -> bool, keyring: Keyring)
    returns (framed: Option<Framed>)
    requires Bounded(keyring) && metabuf.Length == REGION_SIZE
    modifies meta, metabuf
    ensures meta.devicePath == old(meta.devicePath)
    ensures framed.Some? <==> Load(old(metabuf[..]), verify, meta.devicePath, keyring).Some?
    ensures framed.Some? ==>
              && framed == Frame(old(metabuf[..])) && verify(framed.value.data + [NUL], framed.value.signature)
              && Parse(framed.value.data, meta.devicePath, keyring).Some?
              && Holds(meta, Parse(framed.value.data, meta.devicePath, keyring).value, old(meta.dataSize))
  {
    framed := None;
    var metaLen := StrNLen(metabuf);
    if metaLen >= REGION_SIZE - SIG_LENGTH - 1 { return; }
    CSpanProps(metabuf[..], {NUL});
    var data := metabuf[..metaLen + 1];
    var signature := metabuf[metaLen + 1..metaLen + 1 + SIG_LENGTH];
    var f := Framed(metabuf[..metaLen], signature);
    assert data == f.data + [NUL] && Frame(metabuf[..]) == Some(f);
    if !verify(data, signature) { return; }
    assert IsStr(metabuf[..], 0, f.data);
    var ok := ParseMetadata(meta, metabuf, keyring, f.data);
    if ok { framed := Some(f); }
  }

  /** `strnlen(metabuf, sizeof(metabuf))`. */
  method StrNLen(buf: array<char>) returns (n: nat)
    ensures n == CSpan(buf[..], {NUL})
  {
    n := 0;
    while n < buf.Length && buf[n] != NUL
      invariant 0 <= n <= buf.Length
      invariant forall i :: 0 <= i < n ==> buf[i] != NUL
    {
      n := n + 1;
    }
    CSpanUnique(buf[..], {NUL}, n);
  }
}
