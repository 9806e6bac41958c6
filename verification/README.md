# cominit, modelled and proved in Dafny

cominit is an initramfs init. It finds the root partition, checks signed metadata at the end of it, turns the metadata
into a device-mapper table, mounts the root file system and hands over to its init; on the way it runs a TPM seal/unseal
protocol for an encrypted volume. This project models that program, from the command line to the hand-over and over any
number of boots, and proves what it does.

`dafny verify dfyconfig.toml` checks everything. The modules, bottom up:

| module | what it models |
|---|---|
| `CStrings`, `Numbers` | C strings in character arrays, `strtok_r`, `strchr`, `snprintf`, `strtoul`, hexadecimal and decimal text |
| `Metadata` | what a metadata string means, as functions on strings |
| `MetaParser` | the parser that works in place on the buffer, proved against `Metadata` |
| `MetaRegion`, `MetaPrinter` | the metadata region: offset, read loop, framing, signature; a printer and the round trip |
| `Pcr`, `CommandLine` | the PCR list and selection bitmap; the command line |
| `Guid`, `Gpt` | GUID text, partition node names, the search for a partition by type |
| `DmCtl` | the device-mapper steps |
| `SealProtocol` | the seal/unseal protocol as a state machine over actions, boots and power cuts |
| `SecureMemory`, `Tpm` | the protocol's code, every run of which is a run of that state machine |
| `Boot` | `main`: all of the above in one run, and runs over many boots |

How the outside world appears. Every answer of the kernel, the disk, the TPM and the cryptographic library is a parameter
or a free choice. In `Boot` they are the fields of `Env`; in `Tpm` each call of `Platform.Try` may fail at will on a faulty
platform, and each call with an effect may take effect and still report failure. Signature verification is an arbitrary
predicate. A policy digest stands for the registers selected and their values, so equal digests mean equal registers
(collision freedom). A write to the blob file may be lost in a power cut until the partition is unmounted; what the TPM
persisted and what cryptsetup wrote is kept.

Where the code departs from its evident intent or its documentation, the model does what the code does:

- src/meta.c:133-140 does not advance the buffer after a short read, so that the regions the documentation describes all
  arrive exactly when one read delivers everything: `EveryRegionArrives`, with `SplitReadIsWrong` as the failing case. It
  also goes on for as long as reads return nothing: `LoopEndsIff` says when it ends, and `ProgressEnds` that reads which
  bring something always end it. A list of results with which it does not end counts as a failed load in `BootMain`.
- src/meta.c:101 turns away a data block that would fill the region exactly: `FrameRoundTrip`.
- src/meta.c:156 tests the version as a prefix, so that every first field starting with `1` passes.
- src/securememory.c:192-209 stays successful when `Esys_Create` fails. Sealing then persists the key, opens the blob file
  and has nothing to write to it (src/tpm.c:165-166 pass NULL to fwrite; the model leaves the file torn and goes on, and a
  crash at that point is a run cut short). A file written in a boot is complete exactly when its writes took effect, which
  takes an object: `WholeIffWritten`. `SealsWithoutObject` is the failing run, and `TornForever` what becomes of the device.
- src/tpm.c:229 and 314: the session handle that is flushed is arbitrary when `Esys_CreatePrimary` fails: `Platform.Seal`.
- src/securememory.c:119-120 takes a failed key read for a huge key and may format with memory behind the buffer. So the
  claim that the volume always gets the sealed secret is false (`FormatsWithOverRead`), and true exactly when the read
  worked: `FormattedWithSecret`.
- src/tpm.c:159-175 does not sync the blob file. A power cut after luksFormat can take the only copy of the key
  (`KeyCanBeLost`); in every other history blob and volume agree: `HistoryKeepsAgreement`.
- src/tpm.c:207-214 does not check register numbers against the selection bitmap: it stays inside exactly when all of them
  do (`SelectPcr`), which the list parser alone does not ensure (`ListLeavesBitmap`).
- src/automount.c:193-195 does not notice a 64-bit wrap: `EntryOffsetExact` and `WrappedEntry`.
- src/tpm.c:291 and 499 select three bytes, so register numbers from 24 on are ignored: `SelectionIsWholeList`.
- src/automount.c:134-153 gives two partitions one name if a disk is called like another, ending in a digit, plus `p`:
  `NodeNameCollision`.
- src/cominit.c:303-317 goes on after a policy failure, and every fatal error leads to a rescue shell, although
  doc/secure_boot/secure-boot.md:128-129 says that it should stop and should not enter a shell: `BootMain` proves that
  reaching /sbin/init does not depend on how the secure storage turned out, and that the shell is reached exactly when
  neither help nor /sbin/init is, if it can be started.
- src/output.c:62 cuts the log level to 32 bits before comparing it, so that 2^32 sets level 0: `LogLevelOfNumber`.

What callers and surroundings must provide: arguments and device names are C strings; device names under /dev have at most
250 characters (src/automount.c:96 copies a path of 256 bytes without checking); keyring payloads fit the 512-byte buffer
(src/keyring.c:61-66); if the secure storage is used, the register numbers on the command line lie in the selection bitmap.
The bound on them, `TPM2_PT_PCR_COUNT`, is not defined in the repository and stays a parameter.

## Model

| member | source | states |
|---|---|---|
| `Boot.BootMain` | src/cominit.c:147-402 | for every command line and every answer of the system: the trace is exactly the waits, the accepted metadata, the use of the secure storage, the device-mapper steps up to the first that fails, the mount and the switch that the answers give; there is a mount if and only if discovery, metadata, device mapper and mount work; it is justified by metadata of the discovered partition whose signature was accepted before; its source is that partition for plain metadata, else /dev/mapper/rootfs right after create, load, resume and node on one device id with the untruncated table and no other device-mapper step; squashfs and verity are read-only; no dm-crypt bit; the secure storage is used exactly when found, enabled and initialised, right after the metadata was accepted, and then by a run of the protocol; /sbin/init is reached if and only if mount, switch and init work, whatever the TPM did; the help text if and only if asked for; the shell if and only if neither and it starts |
| `Boot.AwaitRootfs` | src/cominit.c:244-255 | the retry loop takes the first attempt that finds a partition, records each wait, waits at most ten times, and fails if and only if all eleven attempts find nothing |
| `Boot.DiscoverRootfs` | src/cominit.c:490-520 | the partition given, if it exists, else the first one under /dev of the root type; the disk is remembered only for the latter |
| `Boot.CandidateMeaning` | src/cominit.c:497-517 | what an attempt finds: the partition given if and only if stat works, else the node of the first directory entry that yields one of the root type |
| `Boot.CandidateDiskMeaning` | src/cominit.c:511-515 | the disk that goes with it |
| `Boot.MetadataMeaning` | src/meta.c:75-118 | the metadata is what the bytes say that were read, framed and signed |
| `Boot.StepsForMeaning` | src/dmctl.c:89-165 | the device-mapper steps for parsed metadata, one by one |
| `Boot.ParsedIsReady` | src/meta.c:227-254 | accepted metadata without dm-crypt is plain, or has a complete table for verity or integrity |
| `Boot.SetupRootfs` | src/minsetup.c:130-155 | mounts if and only if the settings allow it and every step works; what it does is exactly the steps for the table parsed, up to the first that is refused or fails, and the mount |
| `Boot.Finish` | src/cominit.c:324-389 | switches if and only if the mount and the switch work; what it does is exactly that |
| `Boot.FindStorage` | src/cominit.c:269-283 | the storage node is the one given, else what the search on the root disk, or under /dev without one, leaves in the buffer, found or not |
| `Boot.StorageNodeMeaning` | src/cominit.c:269-283 | a node given stays; otherwise that of the first match of the storage type on the root disk, cut to 255 characters, or none; without a root disk, that of the first device that yields one |
| `Boot.UseTpm` | src/cominit.c:285-321 | the protocol runs if and only if the TPM starts and blob, registers and volume are given, with the registers as extended and the bitmap of the list; a policy failure is an ordinary outcome |
| `Boot.LaterBootOpens` | src/tpm.c:726-766 | after any boot that ended Unsealed, whatever failed in it, and any history of boots after it, a fault-free boot opens the volume with the same passphrase if and only if its policy is the same, and reports a policy failure otherwise |
| `Boot.SecretComesBack` | src/tpm.c:747-756 | on a device with a complete blob, after any history, a fault-free boot gets its secret into the keyring if and only if the policy is that of the blob, and ends Unsealed if and only if the secret opens the volume as well, whoever formatted it |
| `Boot.UnsealedIsKeyed` | src/tpm.c:733-756 | a boot that ends Unsealed leaves a complete blob of its own policy and a volume that its secret opens |
| `Boot.SamePolicyOfOptions` | src/tpm.c:207-214 | two command lines give the same policy if and only if they name the same registers below 24, however written, and these hold equal values, with just the register to extend extended |
| `Boot.CompletedIsKept` | src/tpm.c:763 | a completed fault-free boot has unmounted the blob partition, so that no power cut after it takes the blob |
| `SealProtocol.StepKeepsInv` | src/tpm.c:118-546 | each step of the protocol keeps the invariant: a complete blob has its parent in the persistent slot and a 32-byte secret, a keyed volume has that secret, a key in the keyring came from a matching policy |
| `SealProtocol.RunKeepsInv` | src/tpm.c:726-766 | so does every run of a boot, cut short anywhere |
| `SealProtocol.HistoryKeepsInv` | src/tpm.c:726-766 | so does every sequence of boots with arbitrary registers, failures and lost writes |
| `SealProtocol.SetUpIsFrozen` | src/tpm.c:726-766 | once a key is persisted or a blob file exists, no run of a boot changes blob, key or volume |
| `SealProtocol.SetUpForever` | src/tpm.c:118-150 | nor does any sequence of boots; none of them formats anything |
| `SealProtocol.FormatComesAfterBlob` | src/tpm.c:329-409 | luksFormat and mkfs happen only in a boot that began with neither blob file nor persisted key, after the blob was written and with its secret in the keyring |
| `SealProtocol.FormatsInOneBoot` | src/tpm.c:726-766 | in any history at most one boot formats |
| `SealProtocol.SealOrder` | src/tpm.c:301-308 | no object is made after the key was persisted, and no blob file opened before |
| `SealProtocol.OtherPolicyNeverOpens` | src/tpm.c:480-546 | a boot whose policy differs from that of the blob never gets the secret into the keyring and never opens the volume |
| `SealProtocol.SamePolicy` | src/tpm.c:497-505 | policies agree if and only if the selected registers and their values do |
| `SealProtocol.FormattedWithSecret` | src/securememory.c:104-143 | the volume gets the sealed secret as passphrase if and only if the key could be read back from the keyring |
| `SealProtocol.FormatsWithOverRead` | src/securememory.c:119-126 | a first boot that formats with something else |
| `SealProtocol.WholeIffWritten` | src/tpm.c:159-175 | a blob file written in a boot is complete if and only if its writes took effect, which takes an object; there is an object if and only if one was created |
| `SealProtocol.SealsWithoutObject` | src/tpm.c:301-308 | a run without an object that persists the key and leaves a torn file |
| `SealProtocol.TornForever` | src/tpm.c:726-766 | a device with a torn file stays as it is over any history; no boot of it gets a secret or opens the volume |
| `SealProtocol.HistoryKeepsAgreement` | src/tpm.c:159-198 | after any history, a volume touched by this code comes with a complete blob and its parent key, and has its secret if it was keyed from the keyring, if and only if no boot ran luksFormat and then lost the blob file |
| `SealProtocol.KeyCanBeLost` | src/tpm.c:726-766 | a history that ends with a keyed volume and no blob |
| `Tpm.Platform.ProtectData` | src/tpm.c:726-766 | every run is a run of the protocol; never ends Sealed; Unsealed only with the secret of the blob in the keyring and the volume open; without faults the first boot sets everything up, a later one gets the secret or reports a policy failure as the policy says, and opens a volume that the secret opens; every secret given to Esys_Create, the keyring or luksFormat, whether or not the call worked, came from a buffer that was released all zero, and without faults all buffers were; unless a flush failed, no session or object is left, whatever the uninitialised handle held; without faults the unmount comes last |
| `Tpm.Platform.SetupBlob` | src/tpm.c:118-150 | tells an absent blob file from a present one and changes nothing persistent |
| `Tpm.Platform.Seal` | src/tpm.c:225-323 | success means that the primary key is persisted; there is an object if and only if one was created; unless a flush failed no handle is added, and after a success none is missing; without faults there is an object with the policy of this boot |
| `Tpm.Platform.SaveBlob` | src/tpm.c:159-175 | success means that the file exists, complete if nothing failed |
| `Tpm.Platform.SealBlob` | src/tpm.c:384-409 | Sealed only with the file there, complete if and only if its writes took effect; the volume is untouched |
| `Tpm.Platform.EsysCreate` | src/securememory.c:145-234 | an object bound to this boot's policy, or none; with an object, or success, the buffer released last is all zero |
| `Tpm.Platform.EsysUnseal` | src/securememory.c:63-102 | Unsealed only if the policy matches and the secret is in the keyring, without faults if and only if; a buffer handed to add_key is released all zero, whether or not that worked |
| `Tpm.Platform.UnsealObject` | src/tpm.c:480-516 | the live sessions and objects afterwards are those before, unless a flush failed, which takes a fault |
| `Tpm.Platform.UnsealBlob` | src/tpm.c:525-546 | needs the persisted key and a complete blob; nothing persistent changes, and no handle unless a flush failed |
| `Tpm.Platform.CreateLuksVolume` | src/securememory.c:104-143 | success means a formatted volume without token; without faults its passphrase is the key in the keyring; every buffer released is all zero |
| `Tpm.Platform.SetupFirst` | src/tpm.c:342-366 | success means an open volume with token and file system |
| `Tpm.Platform.FirstBoot` | src/tpm.c:733-746 | seal, unseal and set up |
| `Tpm.Platform.LaterBoot` | src/tpm.c:747-756 | unseal and open, nothing persistent changes |
| `SecureMemory.ZeroOut` | src/securememory.c:20-34 | clears exactly the first n bytes |
| `SecureMemory.VerifyZero` | src/securememory.c:44-61 | true if and only if the range is not empty and all zero |
| `Metadata.VerityMeaning` | src/meta.c:258-334 | a verity table exists if and only if there are six tokens and the text fits 1023 bytes; it tokenises to version, device, device and the remaining fields, for any spacing |
| `Metadata.IntegrityMeaning` | src/meta.c:336-448 | an integrity table exists if and only if there are three fields and an option part, every key named is in the keyring and the text fits; it tokenises to device, `0`, `-`, `J`, count, block size and the options in order, each resolved |
| `Metadata.IntegrityCount` | src/meta.c:365-371 | the count announced is the number of optional arguments if and only if the metadata declares the number it lists |
| `Metadata.ResolveKey` | src/meta.c:402-419 | `x::desc` becomes `x:` and hex that decodes to the payload of `desc`, if and only if that is there and not empty |
| `Metadata.ResolveOther` | src/meta.c:402-422 | options of other names, and without a description behind `::`, stay as they are |
| `Metadata.ParsedTableIsText` | src/meta.c:285-294 | every accepted table is a C string that fits its buffer |
| `Metadata.SettingsMeaning` | src/meta.c:177-230 | the settings are valid if and only if there are four fields, `ro` or `rw`, and one of six words; which word gives which feature, and a type cut to 31 characters |
| `Metadata.ParseOfBlocks` | src/meta.c:144-256 | three blocks are accepted if and only if the string starts with `1`, the settings are valid and the table they ask for exists; the result is those |
| `Metadata.ParsedHasBlocks` | src/meta.c:161-175 | whatever is accepted has three blocks |
| `Metadata.VolumeSize` | src/meta.c:296-316 | each decimal field saturates at 2^64 - 1 and the product is modulo 2^64; it is the true product if that fits |
| `CStrings.StrTokR` | src/meta.c:178-208 | the in-place tokeniser, with blank or empty delimiters, agrees with the pure splitter and leaves token and rest as strings in the buffer |
| `CStrings.TokensSplit` | src/meta.c:285-286 | tokenising a joined text is joining the tokens |
| `CStrings.TokensSpaced` | src/meta.c:421 | words each followed by a blank tokenise to themselves |
| `MetaParser.ParseMetadata` | src/meta.c:144-256 | succeeds if and only if the pure parser does, stores what that says, and changes no byte from the terminator on |
| `MetaParser.ParseSettings` | src/meta.c:177-230 | the settings block agrees with the pure parser and no byte outside it changes |
| `MetaParser.GenVerityDmTbl` | src/meta.c:258-334 | agrees with `Metadata.VerityTable`, writes inside its block only |
| `MetaParser.GenIntegrityDmTbl` | src/meta.c:336-448 | agrees with `Metadata.IntegrityTable`, writes inside its block only |
| `MetaParser.ProcessOptions` | src/meta.c:379-434 | the accumulated text is the resolved options each followed by a blank; it fails if and only if a key is missing or the text exceeds 1023 bytes |
| `MetaParser.FormatOption` | src/meta.c:386-419 | cutting the option in place and fetching its key agrees with the pure resolution |
| `MetaParser.CutAtSeparator` | src/meta.c:161-175 | splits at the first 0xFF, leaving both halves as strings |
| `Numbers.BytesToHex` | src/meta.c:450-463 | two digits a byte, terminated |
| `Numbers.HexRoundTrip` | src/meta.c:450-463 | the digits decode to the bytes |
| `Numbers.StrToULDecimal` | src/meta.c:302 | `strtoul` of decimal text is its value, or the largest number if that does not fit |
| `Numbers.StrToULSkips` | src/meta.c:371 | whitespace and a sign in front of a number, by example |
| `Numbers.StrToULOctal` | src/tpm.c:624 | base 0 takes a leading zero for octal, by example |
| `Numbers.StrToULHex` | src/tpm.c:624 | and `0x` for hexadecimal |
| `Numbers.DigitChars` | src/meta.c:456 | the digits are 0-9 and a-f |
| `MetaRegion.OffsetTest` | src/meta.c:91-128 | the signed test accepts a size if and only if the region lies inside and the offset fits; the offset is then exact |
| `MetaRegion.BinReadAll` | src/meta.c:120-142 | the read loop agrees with its functional form for every sequence of results |
| `MetaRegion.LoopEndsIff` | src/meta.c:133-140 | the read loop succeeds if and only if results without an error from the start add up to the length; it is still waiting if and only if there was no error and not enough |
| `MetaRegion.ProgressEnds` | src/meta.c:133-140 | as many reads as there are bytes, each bringing something, always deliver everything |
| `MetaRegion.ReadAllExact` | src/meta.c:133-140 | of results that deliver enough: a single read of everything, after empty ones, gives the region; for a region whose first byte does not recur, only that does |
| `MetaPrinter.EveryRegionArrives` | src/meta.c:133-140 | of results that deliver enough: every region written as documented arrives as written if and only if one read brings everything |
| `MetaPrinter.SplitReadIsWrong` | src/meta.c:133-140 | a framed 4096-byte region read in two halves: success, wrong contents |
| `MetaRegion.FrameRanges` | src/meta.c:100-108 | a region is framed as data and signature if and only if NUL-free data of at most 3582 bytes, a NUL and 512 bytes of signature make up its beginning |
| `MetaRegion.ReadRegionMeaning` | src/meta.c:79-98 | the region can be read if and only if the partition opens, its size leaves room, seeking works and the reads deliver enough |
| `MetaRegion.LoadVerifyMetadata` | src/meta.c:75-118 | success if and only if the region can be read, is framed, signed and valid; what is stored was parsed from exactly the bytes whose signature was accepted |
| `MetaPrinter.SettingsRoundTrip` | README.md:107-136 | printed settings parse back |
| `MetaPrinter.ParseRoundTrip` | README.md:107-136 | printed metadata parses to the same settings and to the verity or integrity table of its block, or none for the other features; without a table it is refused |
| `MetaPrinter.VerityRecord` | src/meta.c:245-334 | a printed verity record is accepted if and only if its block has six fields and the table fits 1023 bytes; the table reads version, device, device and the other fields, its size is field two times field four |
| `MetaPrinter.IntegrityRecord` | src/meta.c:250-448 | a printed integrity record is accepted if and only if it has three fields and an option part, its keys are there and the table fits; the table reads device, `0`, `-`, `J`, count, block size and the resolved options |
| `MetaPrinter.FrameRoundTrip` | src/meta.c:100-107 | a written region frames to its data and signature if and only if one byte is spare |
| `MetaPrinter.LoadRoundTrip` | README.md:107-136 | a written record with a byte to spare loads as it parses if and only if its signature is accepted |
| `DmCtl.SetupDmDevice` | src/dmctl.c:89-165 | succeeds if and only if the target is supported and each step works; the steps made are, up to the first that fails, create `rootfs`, load with target, mode, size in sectors and table, resume and /dev/mapper/rootfs on one id; `data_size` covers headers, table and NUL and stays inside the structure, and the table is unchanged if and only if it fits |
| `DmCtl.CopyTable` | src/dmctl.c:135-136 | the table arrives as a terminated string, cut only if it does not fit |
| `DmCtl.VolumeSectors` | src/dmctl.c:131-132 | sectors are the product over 512, rounded down, exact for block sizes of whole sectors |
| `Gpt.ScanFindsFirst` | src/automount.c:190-222 | the entry loop returns k if and only if k is the first match and everything up to it is on the disk and readable |
| `Gpt.OnDiskMeaning` | src/automount.c:166-232 | a node is found if and only if the disk can be scanned, some entry is the first match, and the node is the one of its index plus one and fits |
| `Gpt.OnDiskAtTrueOffsets` | src/automount.c:189-222 | for a table below 2^64 the entries are those at first LBA times block size plus index times entry size |
| `Gpt.WantedIsType` | src/automount.c:206-217 | an entry is wanted if and only if its bytes are the one value that the type text stands for |
| `Gpt.UnusedIsNotWanted` | src/automount.c:206-215 | an all-zero entry never is |
| `Gpt.FindsLeastEntry` | src/automount.c:166-232 | a node is found if and only if it is that of the least entry whose first sixteen bytes are the type, with it and all before it readable, numbered from one, and fits |
| `Gpt.OnDeviceMeaning` | src/automount.c:247-269 | a directory entry counts if and only if it is not hidden or of one of six kinds, is a block device with a GPT signature, and its disk yields a node |
| `Gpt.TableEnd` | src/automount.c:191-192 | a table whose end is below 2^64 lies below it |
| `Gpt.BuildPartitionNode` | src/automount.c:134-153 | the node if it fits; otherwise none, and the buffer holds it cut |
| `Gpt.FindPartitionOnDisk` | src/automount.c:166-232 | the loops over entries and bytes agree with the scan, in the result and in what they leave in the buffer |
| `Gpt.EntryOffsetExact` | src/automount.c:191-196 | the offset is the true one if and only if that fits 64 bits |
| `Gpt.WrappedEntry` | src/automount.c:191-196 | an entry offset that wraps to zero |
| `Gpt.FindPartition` | src/automount.c:234-274 | the first eligible device in directory order that yields a partition; the disk is stored only on success |
| `Guid.FormatInjective` | src/automount.c:116-122 | two raw GUIDs have the same text if and only if they are the same |
| `Guid.FormatOfParse` | src/automount.c:116-122 | printing a parsed canonical text gives the text in lower case |
| `Guid.ParseOfFormat` | src/automount.c:116-122 | the text of every raw value is canonical and parses back to it |
| `Guid.MixedOrder` | inc/automount.h:40 | the bytes of the root type: first three fields reversed, the others in order |
| `Guid.MatchesExactlyOne` | src/automount.c:216-217 | a canonical text in either case is matched by exactly one raw value |
| `Guid.NodeNameCollision` | src/automount.c:134-153 | exactly when two partitions share a node name |
| `Guid.NodeNameExamples` | src/automount.c:134-153 | the two ways of naming |
| `Pcr.ParsePcrIndexes` | src/tpm.c:635-667 | the list is the maximal digit runs in order, or empty if one is out of range or there are too many |
| `Pcr.DigitRunsExact` | src/tpm.c:643-660 | the runs of any text, exactly: it alternates between them and texts without digits |
| `Pcr.PcrListRoundTrip` | src/tpm.c:635-667 | any text around and between the numbers, leading zeros included, gives the same list |
| `Pcr.SelectPcr` | src/tpm.c:207-214 | stays inside the bitmap if and only if every index does, and then sets the bits as the fold says |
| `Pcr.ListLeavesBitmap` | src/tpm.c:646-655 | an argument the parser accepts that lies outside a bitmap of four bytes |
| `Pcr.SelectAllBits` | src/tpm.c:207-214 | a bit is set afterwards if and only if it was set or its register is listed |
| `Pcr.SelectionBit` | src/tpm.c:210-213 | bit k mod 8 of byte k div 8 of the selection is set if and only if k is listed |
| `Pcr.SameSelection` | src/tpm.c:290-292 | two lists give the same selection if and only if they name the same registers below 24 |
| `Pcr.SelectionIsWholeList` | src/tpm.c:290-292 | the selection is the whole list if and only if no index is 24 or more |
| `CommandLine.ParseArgs` | src/cominit.c:160-218 | stops if and only if a version or help flag is there; otherwise every field is its own fold over all arguments |
| `CommandLine.CliArgs.ParseArg` | src/cominit.c:161-217 | one round with its early `continue`s is one step of all folds together |
| `CommandLine.OneKey` | src/cominit.c:474-488 | no argument matches two options, and none that matches one is a flag |
| `CommandLine.LastValidDevice` | src/cominit.c:442-458 | a device node is the last valid occurrence, empty without one |
| `CommandLine.LogLevelOfNumber` | src/output.c:53-70 | a number is accepted if and only if it fits 64 bits and its lower 32 bits are a level, which is set |
| `CommandLine.IndexOfNumber` | src/tpm.c:622-629 | a number is accepted as an index if and only if it is below the bound |
| `CommandLine.LastIsRoot` | src/cominit.c:169-174 | `root=` or `cominit.rootfs=` as the last argument sets that option if the value is a device node, and nothing else |
| `CommandLine.LastIsBlob` | src/cominit.c:199-204 | the same for the blob partition |
| `CommandLine.LastIsSecure` | src/cominit.c:211-216 | the same for the encrypted partition |
| `CommandLine.LastIsExtend` | src/cominit.c:193-198 | the same for the register to extend, which a bad value switches off |
| `CommandLine.LastIsSeal` | src/cominit.c:205-210 | the same for the register list |
| `CommandLine.LastIsLogLevel` | src/cominit.c:175-180 | the same for the log level |
| `CommandLine.Flags` | src/cominit.c:148-190 | nothing is set without arguments; the two flags are set if and only if their words occur |
| `CommandLine.LastOccurrenceDecides` | src/tpm.c:615-667 | PCR index and list are decided by the last occurrence, even if invalid |
| `CommandLine.CliArgs.ParsePcrIndex` | src/tpm.c:615-633 | a bad value switches the option off |

## Left out

- Cryptography (src/crypto.c): signature check, digest and passphrase generation are arbitrary; no claim about their strength.
- System wrappers (src/keyring.c, src/cryptsetup.c, src/subprocess.c, src/common.c): abstract operations with arbitrary outcomes.
- Logging, version and usage text, including the algorithm names logged by the parser.
- SELinux policy loading, the emulated HSM, /dev and /proc setup, removal of the initramfs, sleeping: single steps whose outcome nothing depends on, apart from the setup of /dev, which is one answer.
- Mounting the secure storage below the new root (src/cominit.c:331-337): its outcome is ignored by the program.
- TPM object templates and the self test: constants handed to a library.
- Recovery: a power cut between persisting the key and formatting leaves a device that no later boot sets up again; only safety is claimed.
- Two partitions for blob and volume: the model has one of each for all boots; changing the nodes between boots is not covered.
- Search: the /dev listing and the answers for each device are fixed during one scan.
- Key buffers whose contents were handed to no call: after a failed passphrase generation or a failed mlock the code frees the buffer without clearing it, and no claim is made for it.
- NULL arguments: every parameter is there.
