# alpine-zfsboot: a verified model

A Dafny model of the path by which alpine-zfsboot's BIOS loader turns disk
sectors into checked bytes in RAM, of the installer that writes what the
loader reads, and of two smaller pieces that change state in place. Nothing
here runs the original program; `dafny verify dfyconfig.toml` checks every
statement below against the model.

| file | models |
|---|---|
| `Wrappers.dfy`, `Bytes.dfy` | optional values, bytes, words and memory writes |
| `HashChain.dfy`, `Sha256.dfy`, `Fips180.dfy` | the streaming SHA-256 of `bios/payload_sum.c` against FIPS 180-4: its hash, where its constants come from and its published digest of "abc" |
| `BlkVerify.dfy` | the verify-and-heal engine of `bios/blkverify.c`, block by block over a whole load |
| `BlkSum.dfy` | the block-table file: the writer of `internal/payloadsum/blksum.go` and the reader of `bios/blkverify.c` |
| `ChainWalk.dfy`, `Fat.dfy`, `FatMount.dfy`, `FatReader.dfy` | the FAT32 reader of `bios/fat.c`, with the callback of `bios/stage2_main.c` that reads in the middle of a read |
| `Manifest.dfy`, `ManifestTool.dfy` | CHECKSUM: the loader's parser, the installer's encoder and decoder, and how the two readers compare |
| `Boot.dfy` | the integrity decisions of `bios/stage2_main.c` from the options to the jump |
| `PayloadWrite.dfy` | `writePayloadWithRollback` of `cmd/tool/main.go` under failures and crashes |
| `DiskPolicy.dfy`, `CdDisk.dfy`, `E820.dfy` | the read policies of the two builds and the memory-map check |
| `Dtb.dfy` | the device-tree edit of `init/fix-kexec-dtb.py` |

What lies outside the program is an input, and every result holds for all of
them. An oracle says of each disk access whether it fails; for the block
checks `BlkVerify.Env` says what lands, what every entry, re-read and second
source gives, and may call anything a success; `Boot.World` adds the reads of
CHECKSUM and BLKSUM; `PayloadWrite.Env` decides each file operation, which
may fail with or without having taken effect. The FAT reader, the disk policy
and the CD reader are stated for a drive that is honest when it reports
success. So a failure is always traced to the input that caused it, and where
the outside refuses nothing the program has to succeed. The compression
function of SHA-256 is a parameter wherever what it computes does not matter,
so those results hold for the real one, and no collision resistance is
assumed anywhere. FAT entries are followed through an abstract table, file
contents through an abstract function; `Fat.Follow` and `Fat.ContentOf` are
the ones a disk defines.

## Findings

- The crash-safety promise of `writePayloadWithRollback` holds unless the
  rollback begins with the new CHECKSUM in place and cannot remove it, which
  is possible because a write can fail after its rename took effect. A run
  without that is always safe; one with it is safe iff the states right after
  the kernel is restored and at its end are (`PayloadWrite.InstallSafe`).
  Over all runs a change of generation is safe iff it installs no manifest or
  is harmless: kernel and initrd stay, or both manifests stay and one of
  kernel and initrd does (`PayloadWrite.AlwaysSafeIff`). For every other change
  `PayloadWrite.HarmfulRun` gives a run that breaks the promise.
- A read that succeeds has not necessarily visited distinct clusters: the
  byte count can be reached before the two walkers meet.
  `ChainWalk.UnnoticedRepeat` says when: the chain has a tail mu and a loop
  lambda with mu + lambda <= n < 2j, j being the first positive multiple of
  lambda at or after mu, and n within the volume's bound. `ChainWalk.SelfLoop` is such
  a table, and the first half of any walk is distinct
  (`ChainWalk.FirstHalfDistinct`).
- The engine's 16-bit `retries` counter can wrap exactly when a load has 8192
  or more blocks, which is the 512 MiB the loader allows for an initrd:
  `BlkVerify.RetriesFitIff`.
- `Decode` in `internal/payloadsum/payloadsum.go` is documented to be as
  strict as the loader's parser. It is not: the loader skips one space at the
  start of a line. `ManifestTool.LoaderIsToolStripped` says exactly how the
  two relate on every text, and `ManifestTool.IndentedModeDiffers` gives, for
  every manifest, a text that one reads as `enforce` and the other as `warn`.
- `str_eq` in `bios/payload_sum.c` compares past the end of its literal when
  a field goes on with a NUL after a keyword. `Manifest.StrEq` is the
  comparison of the two strings for every other field, and
  `Manifest.ModeOverruns` such a field; what the parser then makes of the
  text is open, so what it computes is stated for texts in which no keyword
  is followed by a NUL, as in everything the installer writes
  (`Manifest.EncodeUnambiguous`). That accepted offsets do not exceed their
  sizes holds of every text.
- `bios/fat.c` computes a FAT offset in 32 bits because cluster numbers have
  28. Those a chain leads to do, but the first one comes from a directory
  entry, and mounting sets no upper limit (`FatMount.HugeVolume`). A chain is
  followed by its own entries iff its first cluster is below 2^30
  (`Fat.TrueChain`, `Fat.TrueChainIff`).
- In the CD build a sector number is cut to 32 bits. `CdDisk.Cd.ReadLba`
  names the unit that is delivered for every unit asked for, which is the
  right one for all of them iff the last batch starts below unit 2^34
  (`CdDisk.RightIff`); for any other `CdDisk.WrongDisc` gives a disc on which
  the bytes differ.

## Model

| member | source | states |
|---|---|---|
| `Bytes.WordsRoundTrip` | bios/payload_sum.c:79-100 | words written big-endian and read back are the same words |
| `Bytes.LeReads` | bios/fat.c:343-361 | a word written lowest byte first reads back |
| `HashChain.StateRoundTrip` | bios/blkverify.c:176-184 | a chaining state survives being stored as a 32-byte table entry, so resuming from an entry resumes the state |
| `HashChain.DrainAppend` | bios/payload_sum.c:60-77 | compressing whole blocks of s, then of its rest followed by t, is compressing whole blocks of s + t |
| `HashChain.AbsorbAppend` | bios/payload_sum.c:60-77 | two updates are one update with the concatenation, for every context and every cut |
| `HashChain.PadIsFinalPad` | bios/payload_sum.c:79-100 | the bytes `sha256_final` adds, computed from the fill level alone, are the padding of section 5.1.1 of FIPS 180-4 for the whole message |
| `HashChain.FinishIsHash` | bios/payload_sum.c:79-100 | closing a context that has absorbed a message gives the standard's hash of the message |
| `HashChain.Context.constructor` | bios/payload_sum.c:52-58 | a new context is the initial chain |
| `HashChain.Context.Update` | bios/payload_sum.c:60-77 | the byte and block loop over the 64-byte buffer computes `Absorb` for any earlier fill level |
| `HashChain.Context.FillZeros` | bios/payload_sum.c:79-100 | zeros up to a fill level, everything before kept |
| `HashChain.Context.Final` | bios/payload_sum.c:79-100 | one or two padded blocks in the buffer compute `Finish` |
| `RollingSchedule.RollOn` | bios/payload_sum.c:27-50 | from a 16-word window the next word is word i of the 64-word schedule of section 6.2.2 |
| `RollingSchedule.Overwrite` | bios/payload_sum.c:27-50 | overwriting slot i mod 16 moves the window on by one word |
| `RollingSchedule.Run` | bios/payload_sum.c:27-50 | sixty-four rounds over the rolling array equal sixty-four rounds over the full schedule |
| `Sha256.LoaderMixIsMix` | bios/payload_sum.c:27-50 | the loader's order of summing the four schedule words gives the standard's word |
| `Sha256.CompressBlock` | bios/payload_sum.c:27-50 | `sha256_block` is the compression function of section 6.2.2 of FIPS 180-4, over the constants of `Fips180.TheConstants` |
| `Sha256.Digest` | bios/payload_sum.c:52-100 | init, updates with any pieces and final give SHA-256 of their concatenation, the hash that gives "abc" its published digest (`Fips180.AbcDigest`) |
| `Fips180.TheFirstPrimes` | bios/payload_sum.c:9-18 | the 64 numbers behind the table are primes, all of them up to 311 |
| `Fips180.Rising` | bios/payload_sum.c:9-18 | and listed in order, each once |
| `Fips180.TheConstants` | bios/payload_sum.c:9-18 | each of the 64 round constants is the first 32 bits of the fraction of the cube root of its prime |
| `Fips180.TheInitialState` | bios/payload_sum.c:52-58 | each of the eight words of the first state is the first 32 bits of the fraction of the square root of its prime |
| `Fips180.Chooses` | bios/payload_sum.c:27-50 | bit by bit, the first word chooses between the other two |
| `Fips180.Outvotes` | bios/payload_sum.c:27-50 | bit by bit, the majority of three words |
| `Fips180.AbcDigest` | bios/payload_sum.c:52-100 | the message "abc" has the digest the standard's example gives, which fixes rotations, padding and the order of the working variables |
| `BlkVerify.NextChain` | bios/blkverify.c:97-111 | a block that is right by the table leaves the running hash exactly where the next entry says |
| `BlkVerify.ChainFromStart` | bios/blkverify.c:97-121 | when blocks 0..k-1 are right, hashing the range from its start reaches the state of entry k-1 |
| `BlkVerify.BlocksMakeTheFile` | bios/blkverify.h:15-37 | when every block is right, the hash of the whole range from scratch is the last entry |
| `BlkVerify.ChainEntryAt` | internal/payloadsum/blksum.go:93-108 | the installer's entries are the states the loader starts each block from |
| `BlkVerify.InstallerTableAccepts` | internal/payloadsum/blksum.go:93-108 | the installer's table accepts every block of the payload it was made from |
| `BlkVerify.BlockOkFrame` | bios/blkverify.c:113-121 | whether block k is right depends on its own bytes and entries k-1 and k only |
| `BlkVerify.LegalIsBalanced` | bios/blkverify.c:143-174 | over any history of blocks: mismatches = healed + second + bad, unreported = bad - min(bad, 3), and retries lie between healed + 8(second + reports) and 8(healed + second + reports) |
| `BlkVerify.RetriesFitIff` | bios/blkverify.c:149-165 | the 16-bit retry counter is exact for every history of at most n blocks if and only if n is at most 8191 |
| `BlkVerify.Hooks.SetCap` | bios/disk_policy.c:34-43 | a transfer cap in 1..127 takes effect within what the build grants, any other is ignored |
| `BlkVerify.Engine.constructor` | bios/blkverify.c:66-82 | a started engine has checked nothing, is at the initial chain and accounts for nothing yet |
| `BlkVerify.Engine.HashRange` | bios/blkverify.c:84-95 | hashing a RAM range one scratch buffer at a time continues the chain over exactly those bytes |
| `BlkVerify.Engine.Rehash` | bios/blkverify.c:113-121 | matches iff the block's bytes in RAM, hashed from the chain before it, give the wanted entry |
| `BlkVerify.Engine.TryOnce` | bios/blkverify.c:158-163 | one more read brings the bytes the outside has for that block, try and transfer size into RAM, and counts as right iff it says it worked and they hash to the entry |
| `BlkVerify.Engine.Narrow` | bios/blkverify.c:149-156 | try t runs at what the build grants for the cap divided by 2^(t-1), at least 1 and never above the cap; what those sizes are is `BlkVerify.HalvedIsShift` and `BlkVerify.SizesFall` |
| `BlkVerify.HalvedIsShift` | bios/blkverify.c:149-156 | halving the cap i times is division by 2^i |
| `BlkVerify.SizesFall` | bios/blkverify.c:149-165 | from any possible cap re-read i runs at the cap divided by 2^i while that is at least 1, and the last of the eight at the smallest size the build grants |
| `BlkVerify.SmallestHeals` | bios/blkverify.c:149-165 | with fewer than three bad blocks so far, a block that lands wrong and whose last re-read, at the smallest size, is right is healed |
| `BlkVerify.Engine.Reread` | bios/blkverify.c:149-165 | the number of the first of eight re-reads, at halved sizes, that is right, with its bytes in RAM and its size kept; or 0 when none of the eight is, with the last one's bytes in RAM and the old size back; retries counted modulo 2^16; a block right at the smallest size is healed (`BlkVerify.SmallestHeals`) |
| `BlkVerify.Engine.FromSecond` | bios/blkverify.c:167-171 | a build without a second source reads nothing; otherwise its bytes are in RAM and it is used iff it is right |
| `BlkVerify.Engine.Heal` | bios/blkverify.c:143-184 | what the outside holds for the block decides between healed, second-sourced and reported, and what RAM, cap, counters and chain are afterwards |
| `BlkVerify.Engine.GiveUp` | bios/blkverify.c:143-147 | after three bad blocks a further one is counted as bad and unreported, nothing is read, and the chain resumes from its entry |
| `BlkVerify.Engine.Mismatch` | bios/blkverify.c:143-184 | the bad-block limit decides between the two |
| `BlkVerify.Engine.Judge` | bios/blkverify.c:139-184 | by the entry it was given: accepted as it came iff hashing it from entry k-1 gives entry k, otherwise the verdict, the bytes left in RAM and the cap are those the outside leaves no choice about |
| `BlkVerify.Engine.CheckBlock` | bios/blkverify.c:123-185 | checking is off exactly from the first entry that cannot be read, and touches nothing from then on; otherwise entry k is what the table delivered and verdict, RAM and cap follow from it and the outside; no byte of another block changes |
| `BlkVerify.Engine.Resume` | bios/blkverify.c:175-184 | after a bad block the chain is the one the table says, with k+1 blocks hashed and nothing buffered |
| `BlkVerify.Engine.Landed` | bios/blkverify.c:187-199 | after any number of landed bytes exactly the complete blocks have been looked at, and the outside accounts for every byte that has landed |
| `BlkVerify.Engine.Load` | bios/blkverify.c:187-199 | for every outside and every split of a load into pieces: every byte in RAM and every verdict is accounted for; the table is what could be read of it, and checking ended early iff an entry could not; the counters are exact and balance; and with every entry read and none bad the last entry is the hash of RAM |
| `BlkVerify.OneMoreBlock` | bios/blkverify.c:123-185 | one more verdict, with what it leaves in RAM, keeps every block and every landed byte accounted for |
| `BlkVerify.MoreLanded` | bios/stage2_main.c:722-730 | bytes landing behind the judged blocks leave those as they are |
| `BlkVerify.EndedKept` | bios/blkverify.c:139-171 | an accepted block - as it came, healed or second-sourced - is right in RAM by its entries |
| `BlkVerify.ChainGoesOn` | bios/blkverify.c:139-184 | after any verdict the chain is the one the table says, so a bad block does not spoil the judgement of the next |
| `BlkVerify.VerdictDetermined` | bios/blkverify.c:139-174 | what the outside holds for a block and how many stayed bad before leave exactly one verdict |
| `BlkVerify.CapNeverRaised` | bios/blkverify.c:149-165 | no verdict raises the transfer cap or leaves one the build cannot be at |
| `BlkVerify.FaithfulLoad` | bios/blkverify.h:15-37 | when the bytes that land are the payload's and every entry that can be read is the installer's, RAM is the payload, every verdict good and every counter 0 |
| `BlkVerify.BadIsSpoilt` | bios/blkverify.c:143-174 | a load with a bad block has one that did not match as it came and for which nothing that can be read is right |
| `BlkVerify.HopelessIsBad` | bios/blkverify.c:143-174 | a block for which nothing that can be read at any size is right ends up bad |
| `BlkVerify.BadMeansReported` | bios/blkverify.c:143-174 | over any history a bad block implies one reported after all its attempts |
| `BlkVerify.KeptMakeTheFile` | bios/stage2_main.c:529-570 | all blocks accepted gives the digest the final check computes |
| `BlkVerify.OtherBlockKept` | bios/stage2_main.c:733-739 | writing block k leaves the bytes of every other block alone |
| `BlkSum.CheckSector` | bios/blkverify.c:24-30 | a sector passes iff its last 32 bytes are the hash of the 480 before them |
| `BlkSum.ReadHeader` | bios/blkverify.c:32-64 | the header check in the loader's order computes `ParseHeader`: bad, unsupported, or both descriptors with the block count their sizes demand |
| `BlkSum.HeaderRoundTrip` | bios/blkverify.c:32-64 | a sealed sector with the layout of a header reads back as that header |
| `BlkSum.Blocks` | internal/payloadsum/blksum.go:63-90 | the compression loop over whole blocks |
| `BlkSum.MakeEntries` | internal/payloadsum/blksum.go:93-108 | the one-pass generator with its carried state gives the entries defined block by block from the start of the file |
| `BlkSum.PutEntryAt` | internal/payloadsum/blksum.go:146-151 | an entry copied to its slot changes that slot and no other, within a file's table and across both |
| `BlkSum.FillTable` | internal/payloadsum/blksum.go:146-151 | every entry ends up in its slot and no sector outside the table changes |
| `BlkSum.SealAll` | internal/payloadsum/blksum.go:152-156 | every sector carries its own hash and keeps its first 480 bytes |
| `BlkSum.WriteFile` | internal/payloadsum/blksum.go:126-157 | header and both tables in one sealed file, as the loader will look for them |
| `BlkSum.GenerateBlkSum` | internal/payloadsum/blksum.go:116-158 | fails iff the kernel is no bzImage or a size exceeds 32 bits; otherwise the loader's header check accepts the file with the right sizes, offset, counts and digests, and finds entry i of each table where it looks |
| `ChainWalk.HopsPosition` | bios/fat.c:410-473 | after n hops the hare is at cluster n and the tortoise at cluster n/2 |
| `ChainWalk.HopsBounded` | bios/fat.c:444-473 | at most total + 1 hops ever succeed |
| `ChainWalk.EndedIsDistinct` | bios/fat.c:444-473 | a chain that ends never repeats a cluster |
| `ChainWalk.AcyclicWalk` | bios/fat.c:444-473 | a chain that ends is followed to its end and never rejected as a cycle or as too long |
| `ChainWalk.CyclicWalk` | bios/fat.c:444-473 | a chain with tail mu and loop lambda is rejected no later than hop 2(mu + lambda) |
| `ChainWalk.LoopWalk` | bios/fat.c:444-473 | on a chain with tail mu and loop lambda exactly the hops before twice the first positive multiple of lambda at or after mu succeed, within total + 1 |
| `ChainWalk.EndsOrLoops` | bios/fat.c:444-473 | every chain from a cluster of the volume ends or runs into a loop |
| `ChainWalk.RepeatsIff` | bios/fat.c:444-473 | a walk of n hops on a looping chain has repeated a cluster iff n is at least mu + lambda |
| `ChainWalk.UnnoticedRepeat` | bios/fat.c:444-473 | for every table, a successful walk has repeated a cluster iff the chain loops with mu + lambda <= n and the walkers have not met |
| `ChainWalk.FirstHalfDistinct` | bios/fat.c:444-473 | the clusters of the first half of a successful walk are distinct |
| `ChainWalk.SelfLoop` | bios/fat.c:444-473 | a table on which a successful walk repeats a cluster |
| `ChainWalk.EndVerdictIsTrue` | bios/fat.c:444-473 | an end-of-chain verdict means the chain ends |
| `ChainWalk.WalkIsExact` | bios/fat.c:444-473 | on every table the walk stops, and with end-of-chain iff the chain really ends |
| `Fat.EntryOffsetExact` | bios/fat.c:308-330 | the 32-bit FAT offset is four times the cluster number iff that is below 2^30 |
| `Fat.EntryWritten` | bios/fat.c:343-361 | an entry written low byte first at any aligned offset, under any top four bits, is read back without them |
| `Fat.EntryInFat` | bios/fat.c:308-330 | the sector looked at lies in the first FAT, wrapped or not |
| `Fat.TrueChain` | bios/fat.c:308-361 | from a first cluster below 2^30 every chain is followed by the entries that belong to its clusters |
| `Fat.TrueChainIff` | bios/fat.c:311-322 | from any other there is a disk on which it is not |
| `Fat.RunSector` | bios/fat.c:861-903 | in a run of consecutive clusters the file's sectors follow each other on the disk |
| `Fat.RunByte` | bios/fat.c:861-903 | byte i of a batched read is the byte found by following the chain one cluster at a time |
| `Fat.RunBytes` | bios/fat.c:861-903 | the part of the staging buffer a request covers is that slice of the file |
| `Fat.ScanSector` | bios/fat.c:713-744 | the first entry of a sector that is not passed over, the end mark before any match, or neither |
| `Fat.DirentReads` | bios/fat.c:713-744 | for a directory entry laid out field after field with any attributes: its first cluster and size are read back, it is a directory iff marked so, and it is passed over iff deleted, a volume label or under another name |
| `FatMount.OneBit` | bios/fat.c:506-560 | the test x & (x - 1) accepts exactly the powers of two |
| `FatMount.DecodeReads` | bios/fat.c:475-560 | every field of a boot sector laid out field after field is read back, and the signature accepted iff it is 55 AA |
| `FatMount.NoWrap` | bios/fat.c:538-663 | no 32-bit sum or product of an accepted boot sector wraps |
| `FatMount.MountSound` | bios/fat.c:538-663 | an accepted volume lies inside its partition, its FAT holds an entry for every cluster, and its root is a cluster |
| `FatMount.MountExact` | bios/fat.c:475-666 | the sequence of checks accepts exactly the boot sectors that are well formed for the partition |
| `FatMount.HugeVolume` | bios/fat.c:538-663 | a well-formed boot sector whose root is cluster 2^30 |
| `FatReader.Reader.Lookup` | bios/fat.c:308-361 | through either cache slot an entry is what an uncached read of the selected drive gives, decoded as `Fat.EntryWritten` says; the disk is asked only for a sector that is not in the walker's own slot, which then keeps it; the sector lies in the first FAT; failure is an out-of-range cluster or a read refused in this call |
| `FatReader.Reader.Hop` | bios/fat.c:444-473 | one step of the walk, its error code telling which of the three verdicts stopped it |
| `FatReader.Reader.Probe` | bios/fat.c:866-893 | the run it finds is consecutive in the chain and within one batch |
| `FatReader.Reader.Deliver` | bios/fat.c:861-903 | the piece written to RAM is the file's bytes at that offset, read from inside the volume; nothing is written on failure |
| `FatReader.Reader.HopMany` | bios/fat.c:921-926 | n hops, or the verdict a walk of that length has, or a read refused meanwhile |
| `FatReader.Reader.Seek` | bios/fat.c:847-859 | the walk stands at the cluster and sector of a byte, or has stopped on the way for the chain or for a read refused meanwhile |
| `FatReader.Reader.MoveOn` | bios/fat.c:916-926 | the walk catches up with the sectors a run used |
| `FatReader.Reader.Invalidate` | bios/fat.c:798-802 | both slots are forgotten |
| `FatReader.Reader.Serve` | bios/fat.c:847-929 | the cluster of the first byte, then every run from there; RAM holds what has been delivered |
| `FatReader.Reader.SendAll` | bios/fat.c:859-929 | run after run until every byte of the request is sent and in RAM, or the walk's verdict or a read refused meanwhile |
| `FatReader.Reader.Round` | bios/fat.c:861-927 | one pass delivers the next bytes in order, keeps the position and what was delivered before |
| `FatReader.Reader.ReadRange` | bios/fat.c:821-930 | success puts exactly the requested bytes of the file in RAM and nothing else, also when the callback reads, switches drives and overwrites buffer, caches and error code meanwhile: then RAM holds the file's bytes, or what a drive with the same files has in their place; failure names a true reason: a range outside the file, the verdict of the chain at that length, or an access the outside refuses |
| `FatReader.Reader.SoundChainReads` | bios/fat.c:821-930 | on a chain that ends and is long enough, a request inside the file fails only if the outside refuses an access in that very call |
| `FatReader.SoundChainServes` | bios/fat.c:821-930 | a chain that ends and is long enough leaves a request inside the file nothing but a refused read to fail on |
| `FatReader.Reader.Piece` | bios/fat.c:861-908 | a run delivered and reported keeps the account of what has been sent, whatever the callback reads |
| `FatReader.Reader.Report` | bios/fat.c:903-905 | the callback is told of a piece only once it is in RAM, and what it does leaves RAM accounted for |
| `FatReader.Reader.Progress` | bios/stage2_main.c:722-730 | the piece is counted behind everything before it, whatever the checks then do |
| `FatReader.Reader.Nested` | bios/stage2_main.c:733-914 | any number of lookups, re-reads, table reads and second-source reads leave every landed byte the file's, or the second source's where one was fetched from there, and the boot drive selected |
| `FatReader.Reader.NestedOnce` | bios/stage2_main.c:649-914 | one read of the block checks, of any kind, does so |
| `FatReader.Reader.Reread` | bios/stage2_main.c:733-739 | a re-read that succeeds leaves the file's bytes there even where another drive's were; failure is a refused access or a range the file cannot serve |
| `FatReader.Reader.ReadTable` | bios/stage2_main.c:649-668 | a table sector goes to its own buffer only |
| `FatReader.Reader.FromSecond` | bios/stage2_main.c:833-914 | the other drives are searched once; without one nothing changes; with one the requested bytes, and no others, become that drive's, all of them on success; failure is a refused access or a file there that cannot serve them |
| `FatReader.Reader.FindAlt` | bios/stage2_main.c:875-900 | a drive found is not the boot drive and holds the same two files under a manifest of the same payload; none found means every other drive the BIOS counts is unfit, or an access was refused |
| `FatReader.Reader.AltTry` | bios/stage2_main.c:845-873 | success means mounted and the same files; failure that the drive has no such volume, lacks a file or says something else, or that an access was refused; nothing but the header buffer is written |
| `FatReader.Reader.Compare` | bios/stage2_main.c:856-872 | the two files opened by name from the root and the manifest beside them, parsed and compared with this boot's in sizes, offset and digests; not the same means a path that breaks off or something that differs, or a refused access |
| `FatReader.Reader.ReadSum` | bios/stage2_main.c:858-868 | the other drive's manifest, byte for byte, in the header buffer; or it cannot be read |
| `FatReader.Reader.Fetch` | bios/stage2_main.c:901-914 | the requested bytes, and no others, are then the other drive's; the boot drive is selected again |
| `FatReader.Reader.ReadAway` | bios/stage2_main.c:901-914 | what is delivered, in full or in part, is that slice of the other drive's file |
| `FatReader.Reader.AltLeave` | bios/stage2_main.c:833-843 | the boot drive again, and neither slot from another |
| `FatReader.Reader.LoadFile` | bios/stage2_main.c:934-974 | across at most ten attempts every byte is reported once, in order and as the file has it; RAM holds it still, or what a drive with the same files has in its place, and without such a drive always the former; giving up means a range or chain that cannot serve the file, or ten refused accesses; where nothing is refused a servable file is loaded |
| `FatReader.Reader.Attempt` | bios/stage2_main.c:934-974 | one attempt goes on where the last stopped, keeps RAM accounted for, and fails only for the file or for an access refused during it |
| `FatReader.Reader.OffsetLba` | bios/fat.c:804-819 | the sector that holds a byte, inside the volume; or the chain stops short of it, or a read was refused meanwhile |
| `FatReader.Reader.Mount` | bios/fat.c:475-666 | caches dropped; success iff this read was not refused and the sector is well formed, and the volume lies in the partition |
| `FatReader.Reader.FindInDir` | bios/fat.c:693-751 | the first entry with the name, if of the wanted kind; otherwise no directory, its end mark first, the wrong kind, no such entry in the whole chain, or a read refused in this call |
| `FatReader.Reader.ScanCluster` | bios/fat.c:706-747 | the sectors of one directory cluster: a first match, the end mark, no such name so far, or a refused read |
| `FatReader.Reader.Open` | bios/fat.c:753-796 | walking the names from the root: the file each directory's first match leads to, or a step with no such entry, or a refused read |
| `FatReader.Landing` | bios/stage2_main.c:722-730 | a piece written behind what has landed extends it |
| `FatReader.Rewritten` | bios/stage2_main.c:733-739 | an honest re-read of landed bytes makes them the file's again |
| `FatReader.Replaced` | bios/stage2_main.c:901-914 | bytes of the second source written over landed ones take their own offsets and no others |
| `FatReader.InRamLanded` | bios/stage2_main.c:722-739 | without a second source RAM holds what was reported; with one, that source's bytes exactly where they were fetched |
| `FatReader.RunInVolume` | bios/fat.c:861-903 | a run never leaves the data region |
| `Manifest.NextField` | bios/payload_sum.c:116-128 | by position: the next field and what follows it |
| `Manifest.ParseDecimal` | bios/payload_sum.c:130-147 | with its overflow test accepts exactly one to ten digits whose value is at most 2^32 - 1, and returns the value |
| `Manifest.ParseDigestAt` | bios/payload_sum.c:149-178 | sixty-four lower-case hex digits as 32 bytes, or a refusal |
| `Manifest.ParseEntryAt` | bios/payload_sum.c:158-182 | exactly three fields with offset at most size |
| `Manifest.HeaderAt` | bios/payload_sum.c:203-214 | malformed, another version, or the known header, for every text in which no keyword is followed by a NUL |
| `Manifest.LineAt` | bios/payload_sum.c:215-233 | a later line's effect: a duplicate or broken entry refuses the text, a broken MODE is warn, an unknown line is skipped, for every text in which no keyword is followed by a NUL; for every text accepted offsets stay within their sizes |
| `Manifest.LineEnd` | bios/payload_sum.c:198-201 | where a line ends |
| `Manifest.StrEq` | bios/payload_sum.c:104-112 | compares as the two strings do, unless the field goes on with a NUL after the keyword |
| `Manifest.Keyword` | bios/payload_sum.c:104-112 | a field is compared as a string, for every text in which no keyword is followed by a NUL |
| `Manifest.ModeOf` | bios/payload_sum.c:242-251 | exactly the three mode words, for every text in which no keyword is followed by a NUL |
| `Manifest.ModeOverruns` | bios/payload_sum.c:104-112 | a field whose comparison runs past the literal |
| `Manifest.EncodeUnambiguous` | internal/payloadsum/payloadsum.go:145-160 | the installer writes no such text |
| `Manifest.ParseText` | bios/payload_sum.c:184-240 | the one pass by position computes the parse defined by lines and fields, for every text in which no keyword is followed by a NUL; every text it accepts gives two entries with offset at most size |
| `Manifest.AcceptedInOrder` | bios/payload_sum.c:158-182 | the grammar has it too: every accepted text yields two entries with offset at most size |
| `Manifest.TailFields` | bios/payload_sum.c:116-128 | taking fields one by one from joined text gives the fields in order |
| `Manifest.FieldsJoin` | bios/payload_sum.c:116-128 | splitting into fields undoes joining with single spaces |
| `Manifest.DecParses` | bios/payload_sum.c:130-147 | every 32-bit number survives being written and read |
| `Manifest.HexParses` | bios/payload_sum.c:149-156 | every byte string survives being written and read in hex |
| `Manifest.RoundTrip` | internal/payloadsum/payloadsum.go:145-160 | whatever the installer writes, the loader reads back |
| `ManifestTool.Decode` | internal/payloadsum/payloadsum.go:175-227 | the installer's decoder by lines and splits |
| `ManifestTool.DigestAgrees` | internal/payloadsum/payloadsum.go:213-218 | decoding hex of either case and then refusing upper case is reading lower-case hex |
| `ManifestTool.LineAgrees` | internal/payloadsum/payloadsum.go:188-222 | on every line the two readers agree once one leading space is off |
| `ManifestTool.HeaderAgrees` | internal/payloadsum/payloadsum.go:182-185 | comparing the first line as a whole is comparing its fields |
| `ManifestTool.LoaderIsToolStripped` | internal/payloadsum/payloadsum.go:171-227 | on every text of at most 512 bytes the loader's grammar takes exactly what the tool takes after one leading space is removed from each line; the C parser follows that grammar unless a keyword is followed by a NUL |
| `ManifestTool.ReadersAgree` | internal/payloadsum/payloadsum.go:171-227 | on every text without such spaces grammar and tool agree |
| `ManifestTool.IndentedModeDiffers` | internal/payloadsum/payloadsum.go:171-227 | for every manifest a text that the loader reads as enforce and the tool as warn |
| `ManifestTool.EncodeFits` | internal/payloadsum/payloadsum.go:58-60 | what the installer writes never exceeds the 512 bytes the loader reads |
| `Boot.Stage2.constructor` | bios/stage2_main.c:443-444 | nothing loaded yet |
| `Boot.Stage2.LoadManifest` | bios/stage2_main.c:449-487 | the manifest accepted is the one the first usable of ten reads parses to, if the file can be opened and has a sensible size; otherwise none |
| `Boot.SettledIff` | bios/stage2_main.c:466-476 | a manifest is settled iff one of ten reads parses to it and every earlier one failed or was malformed |
| `Boot.Stage2.CheckFile` | bios/stage2_main.c:494-513 | a size or offset that differs stops the boot iff enforce, and otherwise ends all checking |
| `Boot.Stage2.LoadTable` | bios/stage2_main.c:670-705 | a table is used exactly when one can be opened, the first header of ten reads that is not bad is good, and it describes the files of the manifest |
| `Boot.HeaderSettledIff` | bios/stage2_main.c:682-697 | a header is settled iff one of ten reads is it and every earlier one failed or was bad |
| `Boot.Stage2.ReadOptions` | bios/stage2_main.c:1069-1127 | command line over MODE; stops iff enforce and a size differs; manifest and table take part exactly when accepted, not off and fitting |
| `Boot.Stage2.Prepare` | bios/stage2_main.c:1330-1424 | up to the loads: stops for the layout iff enforce and a size or the kernel's offset differs, and otherwise the manifest takes part iff all of them fit |
| `Boot.Stage2.LoadFile` | bios/stage2_main.c:934-974 | without a table RAM is what lands; with one, in every mode, each block of RAM is accounted for by what arrived, a re-read or the second source; a stop means enforce and a block for which nothing that can be read is right, a block hopeless at every size does stop enforce, and not stopping under a table that ends in the manifest's digest means RAM has that digest; the file's own bytes under its own table are loaded and never stop |
| `Boot.Stage2.CheckedLoad` | bios/stage2_main.c:946-973 | the same for a load under the block checks, in either build and from any transfer cap |
| `Boot.Stage2.DigestOf` | bios/stage2_main.c:529-552 | hashing RAM a buffer at a time differs iff the hash of the whole range differs |
| `Boot.Stage2.VerifyLoaded` | bios/stage2_main.c:613-631 | stops iff enforce and either image differs |
| `Boot.Stage2.LoadBoth` | bios/stage2_main.c:1425-1442 | both ranges filled with what lands or what the block checks made of it, the second at the cap the first left; or a block that stays wrong under enforce; or a read, an address that fails; faithful loads give both files |
| `Boot.Stage2.LoadAndVerify` | bios/stage2_main.c:1425-1463 | the loads and the last look at RAM change nothing the loads left: RAM at the jump is what landed or what the block checks made of it, in every mode, and the files if they arrive |
| `Boot.AskedIff` | bios/stage2_main.c:1069-1127 | the mode in force is enforce iff the option says enforce, or names no mode and the manifest's MODE does |
| `Boot.Stage2.Run` | bios/stage2_main.c:1330-1463 | over every boot and every outside: which manifest and table are believed; in every mode a jump has in RAM what landed, or what the block checks made of it, and the two files if they arrive; a jump under enforce has both images with the recorded digest, size and offset and no hopeless block; an integrity stop only when enforce was asked for; a stop for the layout iff enforce and it differs; a stop for a block only for one for which nothing readable is right; a stop for a digest only when it differs and the table was missing, unreadable or ends in another; any other stop has a cause outside the checks; and when what lands is what the accepted manifest was made for there is no integrity stop |
| `Boot.OffsetsAgree` | internal/payloadsum/payloadsum.go:100-115 | installer and loader accept the same kernel files and cut them at the same byte |
| `Boot.InstallerAgrees` | internal/payloadsum/payloadsum.go:125-142 | the manifest of any two files is read back as written, fits the files, agrees with their block table and holds the digests of the bytes the loader places in RAM |
| `Boot.InstalledIsRecorded` | bios/stage2_main.c:449-487 | when every read of CHECKSUM that works gives what the installer wrote, and one of ten does, that manifest is the one believed |
| `PayloadWrite.ForwardSafe` | cmd/tool/main.go:1853-1912 | every state of the forward steps is safe, and a CHECKSUM present at their end belongs to the old or the new six files |
| `PayloadWrite.UndoWithoutManifest` | cmd/tool/main.go:1768-1814 | once CHECKSUM is gone every state of the restore is safe |
| `PayloadWrite.UndoUntouched` | cmd/tool/main.go:1768-1814 | a rollback of nothing stays safe even if it can remove nothing |
| `PayloadWrite.UndoStuck` | cmd/tool/main.go:1797-1814 | with the new CHECKSUM stuck every state of the restore is safe iff the one after the kernel is put back and the last one are |
| `PayloadWrite.RollbackSafe` | cmd/tool/main.go:1768-1814 | a rollback that reports success restores all six files; it is safe throughout unless stuck, and if stuck iff the state after the kernel and the last one are safe |
| `PayloadWrite.ForwardIff` | cmd/tool/main.go:1853-1912 | the forward steps succeed iff every one of their operations works, and otherwise end at the first that does not |
| `PayloadWrite.RollbackIff` | cmd/tool/main.go:1768-1814 | a rollback reports success iff every one of its operations works |
| `PayloadWrite.InstallIff` | cmd/tool/main.go:1853-1912 | the call succeeds iff every operation works, leaves all as it was iff a read of the backup fails, and is rolled back in full iff a forward operation fails and every operation of the rollback works |
| `PayloadWrite.InstallSafe` | cmd/tool/main.go:1853-1912 | for every two generations and every run: success is six new files, a full rollback or a refusal six old ones; unless stuck, a crash anywhere leaves a CHECKSUM only beside its own kernel, initrd and table; a stuck run is safe iff the state after the kernel is restored and the last one are |
| `PayloadWrite.WorstCaseRun` | internal/espconfig/espconfig.go:51-122 | a write that fails after its rename, then a refused removal: the exact states a run passes through with the new CHECKSUM stuck, with or without its block table |
| `PayloadWrite.AlwaysSafeIff` | cmd/tool/main.go:1853-1912 | every run between any two generations is safe iff no manifest is installed, or kernel and initrd stay, or CHECKSUM and block table stay and one of kernel and initrd does |
| `PayloadWrite.HarmfulRun` | internal/espconfig/espconfig.go:51-122 | for every harmful change of generation, a run that leaves a CHECKSUM beside files it does not describe |
| `PayloadWrite.HarmlessSafe` | cmd/tool/main.go:1853-1912 | under a harmless change every run is safe |
| `PayloadWrite.SafeIsCoherent` | cmd/tool/main.go:1853-1912 | safe states never pair a CHECKSUM with files it does not describe |
| `PayloadWrite.Installer.VerifyFile` | internal/espconfig/espconfig.go:126-135 | a read-back comparison changes nothing |
| `PayloadWrite.Installer.RestoreFile` | cmd/tool/main.go:1778-1791 | one file as it was, written or removed |
| `PayloadWrite.Installer.BackupPayload` | cmd/tool/main.go:1730-1753 | succeeds iff every read did, and then holds all six files |
| `PayloadWrite.Installer.RollbackPayload` | cmd/tool/main.go:1768-1814 | manifests removed first, four files regardless of failures, manifests back only if all of it worked |
| `PayloadWrite.Installer.WriteForward` | internal/espconfig/espconfig.go:142-177 | the forward steps up to the first failure: ESP, operations and verdict are those of `Forward`, which succeeds exactly as `PayloadWrite.ForwardIff` says |
| `PayloadWrite.Installer.WritePayloadWithRollback` | cmd/tool/main.go:1853-1912 | the whole call: the files it leaves, the states it passes through and its verdict are those of `Install`, so it succeeds exactly when `PayloadWrite.InstallIff` says and is as safe as `PayloadWrite.InstallSafe` says |
| `DiskPolicy.Log2IsFloor` | bios/disk_policy.c:108-155 | the bound's logarithm is the floor of log2 |
| `DiskPolicy.Disk.SetChunk` | bios/disk_policy.c:34-43 | a size in 1..127 takes effect within the BIOS limit |
| `DiskPolicy.Disk.Request` | bios/disk_policy.c:113-148 | one request: served, or refused and the chunk halved, or a single sector refused twice; its calls account for chunk and statistics |
| `DiskPolicy.Disk.ReadLba` | bios/disk_policy.c:108-155 | for every pattern of refusals it ends; success is every sector in place, nothing outside is written, the chunk it leaves is half the last refused request of several sectors or the one it found, at most 2 * count + floor(log2(chunk)) calls are made, the largest transfer and the refusals are counted, and failure is one sector the BIOS refuses twice in a row in this call |
| `CdDisk.BatchUnit` | bios/cdrom_disk.c:558-600 | the 512-byte pieces of a batch are the units of the 2048-byte stream |
| `CdDisk.ServedRight` | bios/cdrom_disk.c:558-600 | a unit is served right iff its batch starts below unit 2^34; otherwise one at least 2^34 lower is |
| `CdDisk.RightIff` | bios/cdrom_disk.c:558-600 | a whole request is served right iff its last batch starts below unit 2^34 |
| `CdDisk.WrongDisc` | bios/cdrom_disk.c:558-600 | for every unit served wrong, a disc on which the bytes differ |
| `CdDisk.AcrossTheLimit` | bios/cdrom_disk.c:558-600 | a request may cross unit 2^34 and still be right, when its last batch starts below it |
| `CdDisk.Cd.constructor` | bios/cdrom_disk.c:398-439 | INT 13h iff the BIOS offers it and a real read works, ATAPI otherwise, initialised once and only where INT 13h is not used |
| `CdDisk.Cd.SetChunk` | bios/cdrom_disk.c:228-237 | a cap of N units becomes N/4 native sectors within 1..4 |
| `CdDisk.Cd.ReadBatch` | bios/cdrom_disk.c:520-556 | at most ten tries per backend, in order; INT 13h is given up only after ten refusals, never used again, and ATAPI is initialised at most once; failure is ten ATAPI refusals in this call or no ATAPI |
| `CdDisk.Cd.ReadLba` | bios/cdrom_disk.c:558-600 | for every start, count and cap: each unit delivered is the one its batch reads once its sector number is cut to 32 bits, so exactly the wanted units when the last batch starts below 2^34; every command of 1..4 sectors, nothing outside written; failure is ten ATAPI refusals in this call or no ATAPI |
| `E820.OverlapIsShared` | bios/e820_range.c:13-23 | with saturated ends two ranges overlap iff they share an address |
| `E820.Reach` | bios/e820_range.c:43-51 | one pass extends the covered part or proves the address uncovered |
| `E820.Cover` | bios/e820_range.c:42-65 | stops at the end or at the first uncovered address in at most n + 1 passes |
| `E820.Top` | bios/e820_range.c:53-62 | no RAM at or above it |
| `E820.FindTaken` | bios/e820_range.c:67-75 | an address of the range that is not only RAM, or proof there is none |
| `E820.Check` | bios/e820_range.c:31-76 | fine iff every address is RAM and none is anything else; otherwise the least uncovered address, whether RAM lies above, or an address taken by something else |
| `Dtb.Find` | init/fix-kexec-dtb.py:87-124 | the token loop computes the walk, for every byte string |
| `Dtb.FindAndZero` | init/fix-kexec-dtb.py:80-132 | the edit in place, for every byte string, error paths included |
| `Dtb.ScanItems` | init/fix-kexec-dtb.py:99-123 | the walk over the flattened form of any list of items comes out behind it with the last `/chosen/kaslr-seed` in it |
| `Dtb.ScanNode` | init/fix-kexec-dtb.py:99-123 | the same for a node, with the path restored |
| `Dtb.ItemsCommute` | init/fix-kexec-dtb.py:99-132 | the found bytes are the tree's value, and zeroing them flattens the tree with that value zeroed |
| `Dtb.BlobFound` | init/fix-kexec-dtb.py:80-120 | on a whole blob the walk ends with the tree's last seed |
| `Dtb.SeedByPath` | init/fix-kexec-dtb.py:99-123 | the tree's value is the last `kaslr-seed` among the properties of the root's children named `chosen`, and none if the root has a name |
| `Dtb.EditIsTreeEdit` | init/fix-kexec-dtb.py:80-132 | on the flattened form of any tree: True iff the seed exists and is nonzero, and then the blob with only that value zeroed |
| `Dtb.EditedIsBlob` | init/fix-kexec-dtb.py:80-132 | the result is the flattened form of the edited tree |
| `Dtb.SerializeIsBlob` | init/fix-kexec-dtb.py:80-98 | every tree that fits the header's fields, with any strings block that holds its names, has a flattened form |
| `Dtb.EditSerialized` | init/fix-kexec-dtb.py:80-132 | editing what is written for a tree gives what is written for the edited tree |
| `Dtb.EditTwice` | init/fix-kexec-dtb.py:80-132 | a second run changes nothing |

## Left out

- BlkVerify.Engine.Load: stated for ranges up to 65535 * 65536 bytes; beyond that the engine's 32-bit block end wraps, and the loader caps an image at 512 MiB.
- HashChain.FinishIsHash: messages below 2^32 bytes, the width of the loader's length counter.
- FatReader.Reader.Mount: partitions that end within 64-bit sector numbers; the retry loops around mount and open are not modelled.
- FatReader.Reader.Nested: the callback runs any sequence of the reads the block checks can make, not the engine of `BlkVerify.dfy` itself; the engine is stated over an outside that may give anything for a block.
- FatReader.Reader.AltTry: where the partition lies on each drive is an input; it stands for the GPT and MBR readers.
- FatReader.Reader.Open: takes the path's names already split and padded to eleven bytes.
- Manifest.ParseText: what it computes is left open for a text in which a keyword is followed by a NUL, where the loader's result can depend on the bytes behind a literal; that its entries are in order is not.
- Boot.Stage2.Run: the kernel header read, the memory-map and A20 checks, the initrd's address and whether a load's reads succeed within their attempts are inputs; console output is not modelled.
- PayloadWrite.InstallSafe: each file operation is atomic, as a rename in one directory is; an operation's data reaching the disk later is not modelled.
- Dtb.FindAndZero: which byte strings `decode()` accepts is a parameter.
- DiskPolicy.Disk.ReadLba: sector numbers and statistics are unbounded, and the no-shrink and fault-injection builds are not modelled.
- The path splitting of `fat_open`, `disk_lba_to_chs`, `kernel_runtime_range` and the command-line option parser: single-pass computations on their arguments, with no state; their results are inputs here.
- The GPT and MBR readers, `bios/bootparams.c`, `efi/`, `init/menu.py` and the rest of `cmd/tool`: lookups, firmware wrappers and user interface.
- SHA-256 collision resistance: not provable, and not needed by anything above.
- Inline assembly, INT 10h/13h/15h, A20, unreal mode and port I/O: hardware effects.
