# Verified model of the player firmware's storage, buffering and indexing code

The firmware plays music on bare metal from a FAT32 disk. This project models the
modules whose mistakes would be silent or destructive, and proves what they promise:

- **the disk stack** — cluster chains and their two sector caches, the streaming
  cursor, the whole-file read, the directory walk with its cycle detection, and the one
  writer: a two-slot, checksummed settings record committed in place
  (`Volume`, `DiskFormat`, `Fat32`, `FatStream`, `FileReads`, `Directory`, `LongNames`, `DirWalk`,
  `Floyd`, `FileLba`, `Crc`, `Record`, `RecordCodec`, `RecordFormat`, `CrashSafety`, `ConfigStore`,
  `SettingsFile`, `SettingsRuns`);
- **the streaming buffers** — the player's file source over the streaming cursor, the
  watermarked anti-skip ring on it or on any other source, the block read-ahead stacked on
  either, the lock-free PCM ring, and the decoders' bump arena (`ByteSource`, `Retries`,
  `FileSource`, `Backing`, `DiskBuf`, `ReadAhead`, `Transparency`, `Hysteresis`, `PcmRing`,
  `PcmCounts`, `Arena`);
- **the parsers** — the byte-fed playlist reader with its path resolver, and the FLAC
  metadata reader (`Lines`, `PathBuild`, `PathLaws`, `Playlist`, `PlaylistText`, `M3uParser`, `FlacMeta`, `FlacFile`);
- **names and indexes** — the name hash shared by host and device, the library's title
  comparison, sort, in-place permutation and hashed lookup, and the cover cache
  (`NameHash`, `Titles`, `MergeSort`, `Library`, `AlbumIndex`, `ArtCache`, `ArtProgress`, `CoverCache`,
  `CoverRuns`).

`Words`, `Options`, `Arith` and `Memory` hold 32-bit words, optional values, the
arithmetic the proofs need and what copying bytes means; `KnownValues` holds published values of
the checksums, hashes and encodings. `dafny verify dfyconfig.toml` checks everything.

## How it is built

Code that changes state is a class or an in-place method; each method's contract ties
the new state to a function of the old one, and the promises are lemmas about those
functions. Algorithms that the source runs byte by byte (`Lines.Feed`), segment by
segment in a buffer (`PathBuild.Build`) or hop by hop (`DirWalk.ReadDir`) are connected
to a definition that does the whole job at once. Results about single operations are
then carried over whole runs by drivers that call the operations in any order
(`FileReads.Drive`, `FileSource.Drive`, `Transparency.Drive`, `SettingsRuns.Drive`,
`CoverRuns.Drive`). The buffers sit on a `Backing`: any source whatever, or the player's own.
`Transparency.Playback` runs through every layer: what is read through the buffers and the
file source, first for the tags and then for the decoder, is the content of a cluster chain
on the disk.

A definition that code and laws share — what a FAT word, a record, a name, a path or a title
order means — is also pinned from outside: bytes are written down from what they are to say,
field by field, and shown to be read as saying it (`DiskFormat.WrittenChain`,
`Directory.DeliveredAsWritten`, `LongNames.WrittenIsStored`, `SettingsFile.FoundExactly`,
`RecordFormat.FormatExactly`, `PlaylistText.ReadBack`, `FlacFile.ReadBack`,
`CoverCache.CoverReadBack`), or the meaning is told without the definition
(`PathLaws`, `Titles.NegativeExactly`, `NameHash.KeysExactly`, `KnownValues`).

Faults are explicit. A block device, or a byte source, has a constant `reliable`: if it
is false any operation may fail; if it is true contracts also say that the operation
succeeds, so a method cannot meet its contract by giving up. An unacknowledged write
may leave anything in the sectors it was aimed at; that a torn slot does not decode is a
hypothesis of the crash model, never a claim. What a read that fails halfway leaves of the
file source is part of the model (`Retries`): the buffers' claims about bytes, in single
operations and over whole runs, hold as long as the source is `straight`, that is, as long
as no sector has failed after a pass of its own read had moved the cursor
(`FileSource.FileSource.Read`); their claims about positions and seeks hold regardless.

Method bodies begin with `hide` where a proof does not need to look into a definition; it
keeps the proofs quick and assumes nothing.

Integers are unbounded in Dafny. Wherever the source's 32-bit wrap-around can matter it
is written out (`Words.Wrap32`): sector addresses, ring indices, sequence numbers, the
clock of the cover cache, `size_t` in the arena, the FLAC duration.

## Promises that do not hold as stated

Each of these is a property the code or its comments suggest; the model keeps the code,
shows where it fails and says exactly when it holds.

- A looping folder *is* delivered twice in part: `Floyd.NoRepeatsExactly`,
  `Floyd.TwoCycleRepeats`.
- A load that cannot read the slot with the newest record takes the older one:
  `CrashSafety.UnreadableExactly`, `CrashSafety.UnreadableNewest`.
- Of several unacknowledged saves it is the last one that reached the disk that survives,
  not the last one made: `CrashSafety.CrashSafe`, `CrashSafety.EarlierAttemptSurvives`.
- A settings save leaves other files alone on a volume whose sector addresses fit
  32 bits (`FileLba.FileUntouched`). On a larger one the addresses wrap: some other cluster
  is read from the very sectors that are written exactly when the cluster `2^32 / run`
  further is valid, `run` being the cluster size in 512-byte sectors (`FileLba.AliasExactly`);
  a boot sector that mounts to such a volume is `FileLba.AliasMounts`, and elsewhere no
  other cluster is touched (`FileLba.OthersKept`).
- The arena checks capacity in two places, and each check can be passed by a request that
  overflows `size_t`, though not the same ones: `Arena.CheckExactly` and
  `Arena.OverflowGranted` for a fresh block, `Arena.ResizeCheckExactly` and
  `Arena.ResizeOverflowGranted` for a block resized where it is.
- A long name is not always the disk's: with no end mark but one beyond the accumulator's
  128 units, the name is taken past the accumulator's end. `LongNames.OverrunExactly` says
  for which fragments, `LongNames.OverrunHappens` gives one that does it, and
  `NameHash.ExposesExactly` says when the bytes of the name then depend on memory.
- A read that failed is not always right when repeated. The cursor keeps what the passes
  before the failing one did, and the file source does not take it back: the retry is right
  exactly when the very first pass failed (`Retries.RetryExactly`). The requests that are
  safe whatever fails, data sector or FAT link, are exactly those that one pass satisfies and
  that do not end at a cluster's end with declared bytes left (`Retries.OnePassExactly`,
  `FileSource.FileSource.RepeatableExactly`). `Retries.RetrySkips` is a 128 KiB read over 32
  KiB clusters whose retry leaves out 32 KiB, and `Retries.RetryStops` a read of one such
  cluster whose retry gets nothing. Moving back does not always help: it does exactly when the
  snapshot resumed from was itself filed in place (`Retries.RewindExactly`,
  `Retries.RewindSkips`).
- A failure is not always told from the end of the file. A read that returns nothing before
  the end goes unflagged exactly when the flag was clear and the cursor had lost its chain
  or, after a wrong retry, had run to its end (`Retries.SilentExactly`); a FAT link that
  cannot be read while the cursor is brought up does it (`Retries.SilentHappens`), the
  anti-skip buffer then takes it for the end (`DiskBuf.DiskBuf.Fetch`), and no retry helps
  until the source is moved back (`Retries.LostStays`).
- The pump does not always refill below the low mark. A seek from the end keeps the end
  flag, which is stale exactly when it was set and the target lies before the end
  (`DiskBuf.DiskBuf.Seek`); from then on no pump reads (`Hysteresis.StaleEnd`) until a seek
  told from the start or the cursor leaves the window and clears the flag.
- The count of frames in the PCM ring is right for either side, but a third party that
  takes it may see the difference wrap: `PcmCounts.FillByThird` says exactly when, and
  `PcmCounts.ThirdWraps` gives a run.
- A FLAC duration is the nearest second unless the quotient needs more than 32 bits:
  `FlacMeta.DurationExactly`, `FlacMeta.DurationWraps`.
- A comment the end of the file cuts short is dropped only by a source that refuses seeks past
  the end. The player reads tags through the read-ahead, which grants them, and a comment is
  then taken exactly when its first 512 bytes are there: `FlacMeta.CutCommentExactly`,
  `FlacMeta.CutHappens`.
- The hashed and the linear album lookup agree on every cluster exactly when clusters
  are unique: `AlbumIndex.SearchesAgree`.
- A long name survives conversion to UTF-8 exactly when all but its last character take
  fewer than `cap - 4` bytes: `NameHash.LfnExactly`.
- The buffers accept a seek past the end of the file, which a plain cursor refuses. They
  answer a run as a plain cursor would exactly when no seek told from the start or from the
  cursor aims past the end: `ByteSource.LooseExactly`, `ByteSource.FirstStray`,
  `Transparency.DriveDisk`, `Transparency.Drive`.
- Where the end is, is what the directory declares, not what the chain holds. Seeks are those
  of a cursor on the bytes held exactly when the two agree (`FileSource.SeeksAgreeExactly`);
  through a buffer it is only a granted seek from the end that tells
  (`ByteSource.ShortChainExactly`).

Where comments and code differ the code is followed: with no valid record at load the
first save goes to slot 1, not slot 0 (`core/kernel/config.c:552-555` against line 607);
the record codec keeps `clicker` within 0..3 (`core/kernel/config.c:287`), although the
sound module knows seven profiles; the cover pump takes the oldest request
(`core/ui/artcache.c:321-329`), not the most recent as `core/ui/artcache.h:89` says; an
over-long playlist line that is blank in its first 512 bytes is not counted
(`core/fs/m3u.c:403-408`); and a byte-order mark cut short by the end of the input is
dropped rather than replayed (`core/fs/m3u.c:588-598`).

## Model

| member | source | states |
|---|---|---|
| Volume.MountedIsWellFormed | core/fs/fat32.c:442-562 | Every boot sector that mounts gives a geometry on which all address arithmetic below is meaningful: a legal sector size, 1 to 255 sectors a cluster, a cluster ceiling above 2 and within the cap. |
| Volume.ClusterSectorExact | core/fs/fat32.c:159-177 | The cluster gate is what keeps the 32-bit first-sector expression from wrapping. |
| Volume.SectorLbaExact | core/fs/fat32.c:123-127 | On a volume whose addresses fit 32 bits the computed 512-byte address of every sector is its true one. |
| Volume.FatHoldsEveryCluster | core/fs/fat32.c:185-218 | On a mounted volume whose reserved and FAT sectors do not overflow 32 bits, every cluster below the ceiling has its entry inside the first FAT, so the reader's bound on FAT sectors never cuts a chain. |
| DiskFormat.MountsExactly | core/fs/fat32.c:442-562 | A boot sector written from a layout mounts exactly when its sizes are legal and it has the root folder's cluster at an address that does not wrap; data then begins behind the reserved sectors and every copy of the FAT, and the ceiling shuts out exactly the clusters that have no FAT entry or do not lie within the volume. |
| DiskFormat.ClustersTile | core/fs/fat32.c:169-177 | Cluster 2 begins the data region and the clusters follow each other without a gap. |
| DiskFormat.UnitsExact | core/fs/fat32.c:123-127 | Sectors counted in bytes and 512-byte units, and bytes in sectors, are the products, quotients and remainders they stand for. |
| DiskFormat.FatIsFlat | core/fs/fat32.c:192-217 | The FAT is one array of words on the disk: the link of a cluster is the low 28 bits of the word that has its number. |
| DiskFormat.WrittenChain | core/fs/fat32.c:192-217 | A chain written into the FAT link by link, with anything in the top four bits and any end mark, is the chain that is followed, and ends there. |
| Volume.ChainDistinct | core/fs/fat32.c:185-218 | A chain that ends visits no cluster twice. |
| Volume.ChainBound | core/fs/fat32.c:529-545 | A chain that ends has fewer clusters than the volume's ceiling. |
| Fat32.BlockDevice.Read | core/fs/fat32.c:123-127 | A read that succeeds returns the disk's bytes; on a reliable device within the disk it succeeds. |
| Fat32.BlockDevice.Write | core/hal/hw/ata.c:558-613 | Misaligned, partial or empty requests are refused with nothing changed; otherwise nothing outside the addressed sectors changes, and an acknowledged write is there in full. |
| Fat32.FatVolume.ReadDataSector | core/fs/fat32.c:133-146 | The data cache is unobservable: what comes back is the disk's sector, except for a cluster rewritten behind the cache, which callers exclude. |
| Fat32.FatVolume.Next | core/fs/fat32.c:185-218 | Through the FAT cache, exactly the next cluster the disk's FAT gives; 0 only for a read failure. |
| Fat32.FatVolume.ReadRun | core/fs/fat32.c:858-884 | A bulk read of whole sectors is a slice of the cluster's bytes. |
| Fat32.FatVolume.ReadPart | core/fs/fat32.c:885-900 | A partial read through the data cache is a slice of the cluster's bytes. |
| FatStream.Stream.Open | core/fs/fat32.c:818-825 | A fresh cursor stands at byte 0 with the whole declared size to go; an empty file has no cluster. |
| FatStream.Stream.ReadChunk | core/fs/fat32.c:845-900 | One pass stops short of the request only at a sector boundary, and from a boundary only at the cluster's end or with less than a sector wanted. |
| FatStream.Stream.Advance | core/fs/fat32.c:901-910 | Moving on keeps the cursor in the one form its position has, stepping to the next cluster only when bytes remain. |
| FatStream.Stream.Read | core/fs/fat32.c:827-912 | A successful read returns the chain's bytes from the old position on, as many as asked for unless file or chain ends; the cyclic-chain code is returned only on a chain with more links than the volume has clusters; on a reliable disk there is no I/O error. A failed read leaves the cursor where its completed passes took it: on the chain by none or at least the first of them, or lost; a lost cursor reads nothing. |
| FatStream.Stream.Skip | core/fs/fat32.c:914-946 | Moves the cursor without reading, stopping short only where the file or chain ends, the guard fires, or a FAT link cannot be read, which leaves the cursor lost. |
| FatStream.ReadFile | core/fs/fat32.c:752-816 | A whole-file read returns the first bytes of the chain, short only where the chain ends; an invalid first cluster is reported as corruption. |
| FileReads.GuardNeverFires | core/fs/fat32.c:827-946 | No chain that ends can exhaust the guard of a read, a skip or a whole-file read. |
| FileReads.ReadIsNextBytes | core/fs/fat32.c:827-912 | On a chain that ends a successful read returns exactly the next bytes of the file's content, as many as asked for or as are left. |
| FileReads.SkipMovesLikeRead | core/fs/fat32.c:914-946 | A skip leaves the cursor at the position a read of that many bytes would. |
| FileReads.CursorUnique | core/fs/fat32.c:827-946 | One position of a file has one cursor: cluster, offset and step cannot differ. |
| FileReads.ReadFileIsContent | core/fs/fat32.c:752-816 | A successful whole-file read returns the whole content. |
| FileReads.CallsAddUp | core/fs/fat32.c:827-946 | However calls are cut, the cursor ends where one call for the total would end it. |
| FileReads.SplitIndependent | core/fs/fat32.c:827-912 | Reads of any lengths concatenate to the stretch of content they cover. |
| FileReads.SplitCoversWhole | core/fs/fat32.c:752-912 | Reads that ask for the whole file in any pieces return what the whole-file read returns. |
| FileReads.Drive | core/fs/fat32.c:818-946 | Every sequence of reads and skips on a reliable disk, with whatever in the caches and skips of any length, returns the bytes and ends at the position the content determines. |
| Directory.RecordsConcat | core/fs/fat32.c:600-661 | Scanning records sector by sector, with a long name in the making carried across, is scanning them in one go. |
| Directory.RecordsAreLive | core/fs/fat32.c:600-661 | With a callback that never stops, the entries delivered are exactly the live records before the end marker, in disk order, and each says what its record was written to say. |
| Directory.DeliveredAsWritten | core/fs/fat32.c:628-655 | A record written for a kind, a cluster in two halves and a size is delivered with that kind and cluster, a file with that size and a folder with none. |
| Directory.KindExactly | core/fs/fat32.c:604-645 | A record is live exactly when it is no volume's name and its first byte marks no end, deletion or dot; it is a fragment exactly when its four low attributes are set, and a folder by its fifth. |
| Directory.SomeRecord | core/fs/fat32.c:628-655 | Every record could have been written so: for one kind, cluster and size. |
| LongNames.ReassemblesExactly | core/fs/fat32.c:308-388 | The fragments of a long name, stored last first, reassemble to exactly that name when it has at most 128 units, and to none otherwise; under any other checksum the run is rejected. |
| LongNames.WrittenIsStored | core/fs/fat32.c:331-371 | Fragments written byte by byte, with units at their three places, number, checksum and attribute, are the run the other results are about. |
| LongNames.OverrunExactly | core/fs/fat32.c:331-393 | Whatever fragments come before an entry, its name is taken past the end of the accumulator exactly when they all carry the entry's checksum and a valid number, their characters fit, there is an end mark, and every end mark lies past unit 128. |
| LongNames.OverrunHappens | core/fs/fat32.c:331-393 | One fragment with nothing but an end mark for index 143 is enough. |
| LongNames.NamedByRun | core/fs/fat32.c:600-655 | An entry met anywhere in a directory is delivered under the name that the fragments right before it assemble to, and no others. |
| LongNames.LongNameDelivered | core/fs/fat32.c:600-655 | A directory that holds the fragments of a name and then its entry delivers that entry under the long name, or under its own short one when the name is too long. |
| LongNames.DirectoryNameParity | core/fs/fat32.c:600-655 | From directory to index: an entry stored under a text of at most 128 units is shown as exactly that text when and only when all but its last character take fewer than 252 bytes, and then hashes on the device to what the host stored. |
| DirWalk.WalkLimit | core/fs/fat32.c:51-55 | The walk's bound is between one and 4096 clusters on every volume. |
| DirWalk.LimitExactly | core/fs/fat32.c:51-55 | A folder is within the bound exactly when it takes at most 4096 clusters and, without its last one, at most 4 MiB. |
| DirWalk.ScanCluster | core/fs/fat32.c:594-661 | Scanning a cluster sector by sector is scanning its bytes. |
| DirWalk.Visit | core/fs/fat32.c:589-690 | One turn of the loop, with hare and tortoise only two cluster numbers, either ends the walk with exactly its outcome or leaves that outcome to the rest of the walk, the hare one link further and the tortoise one every other turn. |
| DirWalk.ReadDir | core/fs/fat32.c:564-690 | Apart from read errors the outcome — code, entries, clusters visited — is a function of the disk, and on a reliable disk there are none; of a name taken past the accumulator it is the part that comes from the disk. Every entry says what its record was written to say. |
| DirWalk.WalkTold | core/fs/fat32.c:564-690 | The same of any walk, over chains that end or loop. |
| Floyd.AcyclicWalk | core/fs/fat32.c:564-690 | A chain that ends is reported corrupt exactly when it is longer than the limit and nothing stopped the walk within it; either way the entries are those of its bytes up to the limit. |
| Floyd.AcyclicDelivers | core/fs/fat32.c:564-690 | Within the limit every live entry is delivered once, in disk order, with the kind, cluster and size its record was written for, and nothing else. |
| Floyd.FolderEnds | core/fs/fat32.c:600-661 | The live records of a folder written record by record are those not deleted, no volume's name, no fragment and no dot, up to the first that begins with a zero. |
| Floyd.MeetsExactly | core/fs/fat32.c:667-687 | Hare and tortoise meet exactly when the tortoise is on the cycle and their distance is whole laps. |
| Floyd.CyclicWalk | core/fs/fat32.c:564-690 | A folder whose chain loops, with no end marker, is always reported corrupt, after min(limit, first meeting) clusters, the first meeting coming within twice tail plus cycle; the entries delivered are exactly the live records of the clusters visited, in that order. |
| Floyd.NoRepeatsExactly | core/fs/fat32.c:667-687 | No cluster is delivered twice exactly when the limit cuts the walk in time, or the tail is as long as the cycle or one shorter. |
| Floyd.TwoCycleRepeats | core/fs/fat32.c:667-687 | Of two clusters that point at each other, the live records of the first are delivered, then those of the second, then those of the first again. |
| Floyd.LoopWalk | core/fs/fat32.c:564-690 | Any folder whose chain loops, end markers and stopping callbacks included: corrupt exactly when neither ended the walk by the limit or the first meeting, with the entries of the clusters seen. |
| Floyd.EveryWalk | core/fs/fat32.c:564-690 | For every chain: the walk is over by the limit, the chain's end or the first meeting, whichever comes first, and its outcome is that of scanning the bytes up to there. |
| Floyd.EndsOrLoops | core/fs/fat32.c:185-218 | Every chain either ends or is a tail leading into a cycle, so the cases above are all there are. |
| Crc.Crc32Buf | core/kernel/config.c:214-225 | The bitwise loop computes the checksum of the buffer's bytes as fed one at a time. |
| Crc.StepInjective | core/kernel/config.c:214-225 | The reflected bit step loses nothing on 32-bit words. |
| Crc.FeedWindow | core/kernel/config.c:214-225 | Feeding four bytes is one exclusive-or and 32 bit steps. |
| Crc.BurstDetected | core/kernel/config.c:214-225 | Messages that differ only inside four consecutive bytes have different checksums, whatever surrounds them. |
| Crc.SealedResidue | core/kernel/config.c:214-225 | A message followed by its own checksum always feeds to the same value. |
| KnownValues.PolynomialIs | core/kernel/config.c:214-225 | The constant is the CRC-32 polynomial of RFC 1952, lowest power in the highest bit. |
| KnownValues.CrcVector | core/kernel/config.c:214-225 | The checksum of the byte 7F is 12B88320. |
| Record.SnapNearest | core/kernel/config.c:250-260 | The backlight timeout snaps to a legal choice nearest to it, and legal choices stay put. |
| Record.NormalExactly | core/kernel/config.c:236-300 | Normalising puts every field in range and changes nothing that already is. |
| RecordCodec.Encode | core/kernel/config.c:264-300 | The slot buffer is filled, byte for byte, with the record of the settings and sequence number, padding zeroed and sealed by its checksum. |
| RecordCodec.Decode | core/kernel/config.c:302-369 | The buffer is accepted on magic, version, length and checksum alone, and then read field by field. |
| RecordCodec.RoundTrip | core/kernel/config.c:264-369 | Decoding what was encoded gives back the sequence number and the normalised settings. |
| RecordCodec.FirstBuildRecords | core/kernel/config.c:345-367 | A version 1 record decodes, with an all-zero resume locator. |
| RecordCodec.DecodedInRange | core/kernel/config.c:302-369 | Whatever bytes are accepted, the settings are in range. |
| RecordCodec.BurstRejected | core/kernel/config.c:325-330 | A believed record with any change confined to four consecutive of its 1024 bytes, those of the checksum among them, is rejected. |
| RecordFormat.FormatExactly | core/kernel/config.c:264-300 | Every byte of a record: mark, version, length, sequence number, each setting at its place, the locator, zeros, seal. |
| RecordFormat.BelievedExactly | core/kernel/config.c:302-330 | A record is believed exactly when mark, version, length and seal are in order, whatever else it holds. |
| RecordFormat.LoadedNormal | core/kernel/config.c:331-369 | Whatever a believed record says at those places is put in range, and a payload too short for a locator has none. |
| RecordFormat.NormalIsNearest | core/kernel/config.c:236-300 | Out of range becomes nearest in range, a switch is on unless zero, and a locator without a track is none. |
| FileLba.ResolvedIsCluster | core/fs/fat32.c:978-1062 | A resolved address is the cluster's own, with no wrap-around, on any geometry, and past the partition's start. |
| FileLba.ResolvesExactly | core/fs/fat32.c:978-1062 | On a mounted volume resolution refuses exactly the clusters that are invalid, at sector 0, or past 32-bit addresses: the end-of-volume check adds nothing. |
| FileLba.MountedCeilingInside | core/fs/fat32.c:505-545 | A mounted volume's cluster ceiling stays inside its known size. |
| FileLba.SlotsTogether | core/kernel/config.c:389-444 | Both slots resolve or neither does; they are adjacent, two-aligned and inside the file's first cluster. |
| FileLba.SlotsExactly | core/kernel/config.c:389-444 | They resolve exactly when two slots fit into the declared size and the cluster, which is valid, 1024-byte aligned, past the partition's start and within 32-bit addresses. |
| FileLba.LinkKept | core/kernel/config.c:595-636 | A write confined to a cluster moves no FAT link. |
| FileLba.FileUntouched | core/kernel/config.c:595-636 | The frame theorem: a file whose chain avoids the written cluster keeps its chain and its content. |
| FileLba.AliasExactly | core/fs/fat32.c:123-177 | On any geometry, some other valid cluster is read from the sectors a settings file resolves to exactly when the cluster one round of the 32-bit space further is valid; then the first sector of the first slot is shared. |
| FileLba.OthersKept | core/fs/fat32.c:123-177 | Where that cluster is not valid, a write within the settings file's cluster changes no sector any other cluster is read from. |
| FileLba.FatNeverAliased | core/fs/fat32.c:123-127 | No sector before the data region, the FAT's among them, is ever shared. |
| FileLba.AliasMounts | core/fs/fat32.c:442-562 | A boot sector with 512 KiB clusters and no stated size mounts to a volume where a save to cluster 3 is read back from cluster 3 + 2^22. |
| CrashSafety.NewerSound | core/kernel/config.c:371-377 | One step on is newer, across the wrap too; nothing is newer than itself; never both ways. |
| CrashSafety.NewerExactly | core/kernel/config.c:371-377 | A number is newer than those that reach it in less than 2^31 steps, and no others. |
| CrashSafety.CrashSafe | core/kernel/config.c:480-636 | From any two slots, after a load and any run of acknowledged saves, failed saves, power cuts and reloads, a reload finds exactly the last acknowledged settings, or the last unacknowledged ones that reached the disk since. |
| CrashSafety.AllAcknowledged | core/kernel/config.c:595-636 | When every save is acknowledged, what is promised is the settings saved last. |
| CrashSafety.AcknowledgedOrAttempted | core/kernel/config.c:595-636 | After an acknowledged save, whatever fails next, a reload finds it or one of the attempts after it. |
| CrashSafety.RunPaired | core/kernel/config.c:595-636 | From the first acknowledged save on, two valid slots have numbers one apart modulo 2^32. |
| CrashSafety.NewestUntouched | core/kernel/config.c:601-607 | Until a save is acknowledged or the slots are loaded again, however many saves fail or are cut short, the slot of the newest known record keeps it. |
| CrashSafety.UnreadableExactly | core/kernel/config.c:523-562 | A load that could not read some slot finds the newest record exactly when that slot was read. |
| CrashSafety.UnreadableNewest | core/kernel/config.c:523-562 | With the newest slot unreadable the load takes the older record and aims the next save at the newest. |
| CrashSafety.EarlierAttemptSurvives | core/kernel/config.c:595-636 | The attempt that survives need not be the latest one. |
| ConfigStore.ConfigStore.Find | core/kernel/config.c:451-505 | The file is what the walk of the root folder ended on: the first non-folder with its 8.3 name, big enough for two slots. |
| SettingsFile.NamedExactly | core/kernel/config.c:451-477 | The settings file is any file whose eleven name bytes are those of CORECFG.DAT, in either case; no NUL, space or dot elsewhere makes another pass for it. |
| SettingsFile.FoundExactly | core/kernel/config.c:451-505 | In a root folder whose chain ends, it is the first live record of that name, when it has a cluster and 2048 bytes, with the cluster and size it was written for; when there is none, none is found. |
| ConfigStore.ConfigStore.Load | core/kernel/config.c:480-563 | Saving is enabled exactly when the file is found and its slots resolve; memory then holds what the protocol's load says for the slots that could be read; a second load on the same mount, after saves, does the same. |
| ConfigStore.ConfigStore.Save | core/kernel/config.c:595-636 | Nothing outside the file's first cluster changes whatever the disk does; an acknowledged save is the protocol's step, an unacknowledged one changes at most the target slot and no memory; on a reliable disk a save is acknowledged. |
| ConfigStore.SlotWrite | core/kernel/config.c:595-636 | A write to one slot is confined to the file's first cluster and leaves the other slot's record alone. |
| ConfigStore.FailedSaveIsStep | core/kernel/config.c:621-631 | What a failed save leaves is a step of the protocol exactly when the target slot is old, new or undecodable. |
| SettingsRuns.SaveUnderStream | core/kernel/config.c:595-636 | A stream opened before a save, acknowledged or not, stands where it did after it, on the same content. |
| SettingsRuns.ReadSaveRead | core/kernel/config.c:595-636 | A file read through the caches before a save and again after it is the same file. |
| SettingsRuns.WalkKept | core/kernel/config.c:595-636 | A write confined to a cluster a folder does not use changes nothing about that folder's walk. |
| SettingsRuns.Drive | core/kernel/config.c:480-636 | Over one disk, saves and power cycles in any order, then power on once more: the protocol's run is spelled out by what each act showed, a save being the acknowledged one exactly when its return code was 0; as long as every load read the folder and both slots and every failed save left its slot old, new or undecodable, the settings found are exactly the promised ones; on a reliable disk all of that is so and they are the settings saved last; nothing outside the file's first cluster changes. |
| ByteSource.Source.Read | core/codecs/decoder.h:81-85 | What a decoder expects of any source: bytes from the cursor on, fewer than asked for perhaps but not none before the end; failures only when unreliable, and flagged; bytes past the returned count are arbitrary. |
| ByteSource.Source.Seek | core/codecs/decoder.h:82-85 | Repositions only within the file; a loose source, such as the read-ahead, also past its end, unless told from there. |
| Retries.RightExactly | core/player/player.c:198-243 | A read that meets no fault is answered as a plain cursor would answer it, whatever the file holds, exactly when the cluster cursor is then where the source takes it to be, or nothing is asked for or left. |
| Retries.RetryExactly | core/player/player.c:222-243 | After a read that failed, a repetition is right exactly when the failure was a data sector in the read's first pass. |
| Retries.OnePassExactly | core/fs/fat32.c:839-910 | Of a source in place, the reads that can be repeated whatever stops them, a data sector or a FAT link, are exactly those that one pass of the cursor satisfies and that do not end at a cluster's end with declared bytes left. |
| Retries.RewindExactly | core/player/player.c:198-214 | After a move back a read is right exactly when the snapshot it resumes from was filed in place; the start of the file always is. |
| Retries.SilentExactly | core/player/player.c:215-240 | A read that returns nothing before the end of the file is unflagged exactly when the flag was clear and the cursor had lost its chain, on the way or before, or a wrong retry had run it to the end. |
| Retries.StaysStraight | core/player/player.c:180-243 | A source in place, snapshots included, stays so through every read but one whose data failed after a pass of its own. |
| Retries.NeverWrong | core/player/player.c:180-253 | Over any run of reads and moves, however much fails otherwise, no byte is delivered from a wrong place unless a sector failed after a pass of its read. |
| Retries.LostStays | core/player/player.c:198-240 | A source whose cursor has lost its chain delivers nothing, whatever is read and wherever it is moved ahead, until it is moved back. |
| Retries.RetrySkips | core/player/player.c:222-243 | A failure in the second cluster of a 128 KiB read over 32 KiB clusters makes the retry start 32 KiB too far. |
| Retries.RetryStops | core/fs/fat32.c:901-910 | A read of one 32 KiB cluster, in one pass, fails when the link behind it cannot be read, and its repetition gets nothing. |
| Retries.SilentHappens | core/player/player.c:215-240 | A source moved on past its first cluster, whose link cannot be read, returns nothing and raises no flag. |
| Retries.RewindSkips | core/player/player.c:180-214 | A snapshot taken after a wrong retry makes a later move back resume 32 KiB too far. |
| FileSource.FileSource.Open | core/player/player.c:154-169 | A fresh source stands at byte 0, in place, without a fault or a snapshot. |
| FileSource.FileSource.MoveBack | core/player/player.c:198-214 | Moving back resumes from the latest snapshot at or before the position, or from the start. |
| FileSource.FileSource.Read | core/player/player.c:180-243 | Through snapshots, skips and the cursor's own passes, a read with whatever fails in it is one step of the machine the results above are about; what it delivers is the file's from where the cursor then stood; on a reliable disk nothing fails. |
| FileSource.FileSource.RepeatableExactly | core/player/player.c:198-243 | The player's own source, whenever it is in place before the end of the file, can repeat exactly those reads: the pass is the one its cursor would make, the cluster the one it stands in, and the chain may fall short of the declared size. |
| FileSource.FileSource.ReadWell | core/player/player.c:222-243 | On a reliable disk it owes its caller what a decoder expects of a source, the file being what the chain holds. |
| FileSource.FileSource.Seek | core/player/player.c:244-255 | Moves within the declared size, and reads nothing. |
| FileSource.SeeksAgreeExactly | core/player/player.c:244-255 | Its seeks are those of a plain cursor on the file's content exactly when the chain holds all of the declared size. |
| FileSource.Drive | core/player/player.c:154-259 | On a reliable disk every mix of reads, moves and tells is answered as by a plain cursor on the content of the cluster chain, in a file as long as declared, whether or not the chain holds that much. |
| ByteSource.LooseExactly | core/codecs/diskbuf.c:136-173 | A cursor that accepts seeks past the end answers a run as a plain one does exactly when no seek told from the start or the cursor aims past the end. |
| ByteSource.FirstStray | core/codecs/diskbuf.c:136-173 | They part at the first such seek: granted by the one, refused by the other, with all answers before it equal. |
| ByteSource.ShortChainExactly | core/codecs/diskbuf.c:136-152 | Through a buffer, a chain that falls short of the declared size is told from a whole file of the bytes it holds by a seek from the end that is granted, and by no other operation. |
| Backing.Backing.Read | core/codecs/decoder.h:77-85 | What the buffers may rely on, be it any source or the player's own: perhaps fewer bytes than asked for, none only at the end unless the source fails; they are the file's as long as the source is straight, and nothing outside the stretch asked for is written. |
| DiskBuf.DiskBuf.MakeRoom | core/codecs/diskbuf.c:48-75 | Eviction never passes the read cursor, and there is room exactly unless the ring is full of unread bytes. |
| DiskBuf.WindowGrows | core/codecs/diskbuf.c:70-92 | A backing read into the room behind the window, scribbling on all of it, extends the window and harms none of it. |
| DiskBuf.DiskBuf.Fetch | core/codecs/diskbuf.c:48-93 | Over any source, with reads as short as it likes, the window invariant holds; a fetch that returns nothing without setting the end flag has no room, stands past the declared end, or failed; with room and within the declared size a flagged failure is counted when the probe is registered, and anything else that returns nothing is taken for the end. |
| DiskBuf.DiskBuf.Read | core/codecs/diskbuf.c:95-134 | Returns the file's bytes from the cursor on, as long as the source is straight, exactly that many written; short on a good source only at the end of the file; a short read has found the end or latches an error, and with the probe registered a flagged failure latches one; none is latched on a good source. |
| DiskBuf.DiskBuf.Seek | core/codecs/diskbuf.c:136-173 | Every non-negative target is accepted, targets from the declared end only up to it; the end flag survives a seek from the end, and is then stale exactly when it was set and the target lies before the end of what the chain holds. |
| DiskBuf.DiskBuf.Pump | core/codecs/diskbuf.c:224-252 | The cursor does not move; on a good source each pass makes progress, finds the end, or obeys the watermarks; a failed pass, be it of a burst or the one that wakes an idle buffer, is counted, and one of a burst latches an error and ends it from the eighth in a row on, never before. |
| DiskBuf.EighthFailure | core/codecs/diskbuf.c:224-252 | From any streak, filling or idle, a source that fails every pump is given up with the failure that brings the streak to eight, or the next one the pump is allowed to judge: never by the one that only wakes the drive, and not earlier. |
| ReadAhead.ReadAhead.Refill | core/codecs/readahead.c:33-45 | Over the anti-skip buffer or any source, whose reads may be short, the block holds the file's bytes from the cursor on; it is left empty when the source beneath refuses the position. |
| ReadAhead.ReadAhead.Read | core/codecs/readahead.c:55-100 | Through block or bypass, over either, the file's bytes from the cursor on as long as the source is straight, short on a good source only at the end. |
| ReadAhead.ReadAhead.Seek | core/codecs/readahead.c:102-126 | The cursor moves lazily: to any non-negative target, but from the end only where the source beneath agrees; nothing is read and no error latched. |
| Transparency.DriveDisk | core/codecs/diskbuf.c:48-252 | Over any backing source with short reads, and whatever chain it stands on: every mix of reads, seeks, tells and pumps is answered as by a plain file cursor exactly when no seek strays past the declared end, and then no error is latched; over a failing source, positions and seeks are still those, and all bytes delivered are the file's if the source is straight in the end. |
| Transparency.Drive | core/codecs/readahead.c:33-131 | The same, both ways and for failing runs, for the read-ahead on the anti-skip buffer, with pumps behind its back, and for the read-ahead on any source itself. |
| Transparency.Playback | core/player/player.c:627-659 | A track from disk to decoder: opened on a mounted volume with whatever in the sector caches, its tags read through a read-ahead on the file, then played through both buffers over the source as the tags left it: on a reliable disk both runs are answered from the content of its cluster chain exactly when no seek strays, and then no error is latched; on a failing one every byte is the content's as long as the source is straight. |
| Transparency.Decode | core/player/player.c:650-656 | The second half from any state of the source: the buffers start at byte 0 wherever it stands. |
| Hysteresis.RestsBetweenBursts | core/codecs/diskbuf.c:224-252 | Between a burst that reached the high watermark and any later one the decoder consumes more than high minus low bytes. |
| Hysteresis.BurstsFill | core/codecs/diskbuf.c:224-240 | A burst is left only by a pump, with the high watermark reached or the whole rest of the file read. |
| Hysteresis.BurstTerminates | core/codecs/diskbuf.c:224-252 | A run that stays in one burst has no more pumps than there are bytes to the end of the file, plus one. |
| Hysteresis.StaleEnd | core/codecs/diskbuf.c:136-252 | With the end flag set, stale or not, no pump of a run without seeks reads anything. |
| Hysteresis.Play | core/codecs/diskbuf.c:95-252 | Any schedule of pumps and reads on the buffer itself, over a good source, is a run the results above speak of, its pumps being the schedule's. |
| PcmRing.FrameIndexIsSlot | core/kernel/pcm_ring.c:57-96 | Masking a wrapped 32-bit index picks the slot the true frame number names. |
| PcmRing.FrameSlotsUnused | core/kernel/pcm_ring.c:57-76 | The next frame's slots hold no unread sample. |
| PcmRing.Ring.Write | core/kernel/pcm_ring.c:57-76 | As many frames as fit are accepted, and the stream grows by exactly those. |
| PcmRing.Ring.Read | core/kernel/pcm_ring.c:78-96 | The oldest unread frames are handed out in order, and the rest of the destination is left alone. |
| PcmRing.Ring.Fill | core/kernel/pcm_ring.c:45-50 | While neither side moves, the wrapped difference of the indices is the number of unread frames. |
| PcmRing.StepKeeps | core/kernel/pcm_ring.c:17-96 | Every atomic step of either side keeps the invariant. |
| PcmRing.Linear | core/kernel/pcm_ring.c:17-96 | Under every interleaving of observe, copy and publish steps the consumer receives a prefix of what the producer published, and every placed sample not yet released is intact. |
| PcmCounts.FillByConsumer | core/kernel/pcm_ring.c:45-55 | Taken by the consumer while the producer moves, the count is that at the first load: no more than what is there. |
| PcmCounts.FillByProducer | core/kernel/pcm_ring.c:45-55 | Taken by the producer while the consumer moves, it is that at the second load, and the free count no more than the room there is. |
| PcmCounts.FillByThird | core/kernel/pcm_ring.c:45-55 | Taken by a third party while both move, it is a possible count exactly when no more frames were consumed between the loads than were unread at first; else it wraps, and the free count exceeds the capacity. |
| PcmCounts.ThirdWraps | core/kernel/pcm_ring.c:45-55 | One frame written and read between the loads makes an empty ring count 2^32 - 1 frames. |
| Arena.CheckExactly | core/codecs/arena.c:19-53 | A fresh block's capacity check is right exactly when the true end fits 32 bits or the wrapped one exceeds the capacity too. |
| Arena.OverflowGranted | core/codecs/arena.c:41-59 | A request that overflows can be granted. |
| Arena.ResizeCheckExactly | core/codecs/arena.c:75-80 | The same for the second check, of a block resized where it is, with its own end. |
| Arena.ResizeOverflowGranted | core/codecs/arena.c:75-80 | A request the first check refuses and the second grants: 4 GiB in a 16-byte arena. |
| Arena.BlocksDisjoint | core/codecs/arena.c:41-93 | Live blocks overlap neither each other nor each other's headers. |
| Arena.PayloadWritten | core/codecs/arena.c:41-93 | A client that writes within its own block harms no header and no other block. |
| Arena.Arena.Alloc | core/codecs/arena.c:41-59 | Whenever its check is right, overflowing requests that it refuses included: a request fits exactly when the true end is within the capacity; then it gets an aligned block above all others and nothing below it changes; else nothing changes but the flag. |
| Arena.Arena.Store | core/codecs/arena.c:41-93 | So the arena stays sound while its clients use their blocks. |
| Arena.Arena.ResizeLast | core/codecs/arena.c:75-89 | Whenever its check is right, the newest block grows or shrinks where it is exactly when its true end is within the capacity, every other block keeps its bytes, and so does this one as far as both sizes go. |
| Arena.Arena.Realloc | core/codecs/arena.c:61-93 | The first bytes of the block are kept, as many as both sizes have; every other live block keeps place and bytes; on failure the old block and everything else is untouched. |
| Arena.Arena.Free | core/codecs/arena.c:95-99 | Giving a block back changes no memory and no bookkeeping until the next reset. |
| Arena.Arena.Reset | core/codecs/arena.c:34-39 | Everything is reclaimed; the peak and the out-of-memory flag stay. |
| Lines.ByteFedIsLineBased | core/fs/m3u.c:487-633 | Fed one byte at a time or cut in one go — byte-order mark, terminators, the 512-byte limit, the unterminated last line — the handler sees the same lines. |
| Lines.FeedMark | core/fs/m3u.c:588-612 | A byte-order mark held back byte by byte is dropped if complete and replayed if it breaks off. |
| Lines.FileLines | core/fs/m3u.c:487-633 | Lines ended by a line feed, a carriage return or both, with or without a byte-order mark and with or without an end to the last, are handled as the lines they are. |
| PathBuild.Build | core/fs/m3u.c:195-298 | The in-place path builder computes what the segment-stack resolver does, with the same errors, and terminates the buffer. |
| PathBuild.PopIsPop | core/fs/m3u.c:262-274 | Dropping back to the last slash in the buffer is popping the stack. |
| PathBuild.ResolvedCanonical | core/fs/m3u.c:195-298 | Every success is non-empty, fits, and splits into segments none of which is empty, "." or "..". |
| PathBuild.CanonicalBytes | core/fs/m3u.c:195-216 | No byte of a success is a backslash, a colon or a control byte. |
| PathBuild.ResolveIdempotent | core/fs/m3u.c:195-298 | Resolving a success again, from the root, gives it back unchanged. |
| PathLaws.NameInFolder | core/fs/m3u.c:229-298 | A name is found in the playlist's folder, and is too long exactly when its path there is. |
| PathLaws.UpFromFolder | core/fs/m3u.c:262-274 | Two dots lead to the folder the folder is in. |
| PathLaws.UpFromRoot | core/fs/m3u.c:262-266 | From the root they are refused. |
| PathLaws.StayInFolder | core/fs/m3u.c:257-261 | One dot is the folder itself, and the root by itself is no track. |
| PathLaws.FromTheRoot | core/fs/m3u.c:207-227 | A leading separator or drive letter means the root, whatever the folder. |
| PathLaws.RefusedBytes | core/fs/m3u.c:195-214 | A control byte, or a colon that ends no drive letter, refuses the line. |
| PathLaws.GoesOn | core/fs/m3u.c:241-298 | A line that goes on after a slash names what its rest names in the folder of its first part; a first part that escapes or is too long settles it. |
| PathLaws.SeparatorsAlike | core/fs/m3u.c:75-78 | Backslash and slash mean the same. |
| Playlist.KeepIsWhole | core/fs/m3u.c:93-142 | A title is cut to whole UTF-8 sequences, and nothing more would have fitted. |
| Playlist.BaseCanonical | core/fs/m3u.c:538-546 | The playlist's folder is normalised or degrades to the root. |
| Playlist.EveryTrackAccounted | core/fs/m3u.c:387-476 | Total plus the three skip counters is the number of lines that, in their first 512 bytes, are neither blank nor comments; the entries are min(total, room), and truncation is reported exactly when there were more. |
| Playlist.EntriesGood | core/fs/m3u.c:387-476 | Every entry's path is canonical, non-empty and fits, and its title is whole characters. |
| PlaylistText.ReadBack | core/fs/m3u.c:387-633 | A playlist written track by track — header, tag with seconds and title, path — is read back as those tracks in order, the paths found in its folder, whatever ends its lines. |
| PlaylistText.SecondsExactly | core/fs/m3u.c:317-343 | The time of any tag: blanks, a sign, digits and a rest; one to nine digits count, unless negated and not zero. |
| PlaylistText.WholeCharacters | core/fs/m3u.c:93-142 | Of a title in UTF-8 as many whole characters are kept as fit. |
| PlaylistText.PaddedLine | core/fs/m3u.c:387-401 | Blanks around a line change nothing. |
| PlaylistText.BlankLine | core/fs/m3u.c:403-408 | A blank line is no line, even between a tag and its track. |
| PlaylistText.EitherCaseTag | core/fs/m3u.c:410-425 | A directive counts in either case. |
| M3uParser.ParseSeconds | core/fs/m3u.c:317-344 | The tag's leading signed number as a duration; -1 when absent, negative or longer than nine digits. |
| M3uParser.ParseTitle | core/fs/m3u.c:345-370 | The title after the first comma: trimmed, cut at a control byte and to whole characters. |
| M3uParser.CopyUtf8 | core/fs/m3u.c:127-142 | Copies what may be kept, and terminates it. |
| M3uParser.Parser.TrackLine | core/fs/m3u.c:430-475 | A track line consumes the pending tag whatever becomes of it, and moves exactly one counter. |
| M3uParser.Parser.LineFlush | core/fs/m3u.c:387-507 | Handling the assembled line is the line's meaning applied to the state. |
| M3uParser.Parser.FeedByte | core/fs/m3u.c:578-612 | One byte of input is one step of the line machine. |
| M3uParser.Parser.Parse | core/fs/m3u.c:509-633 | However the source chunks its bytes, entries and counters are those of the consumed bytes cut into lines in one go; on a good source up to 1 MiB is consumed; a file that reaches that is flagged and its partial last line dropped. |
| FlacMeta.SkipBytes | core/codecs/flac_meta.c:64-81 | By seek or by reading, exactly that many bytes are passed; a reliable source has them, or is then at its end, or past it if it grants seeks there. |
| FlacMeta.ParseVorbisComment | core/codecs/flac_meta.c:241-295 | Whatever lengths the block claims inside, exactly its own bytes are consumed, or all that a file cut short has of them, and the tags are those of these bytes; a comment cut short counts, on a source that grants seeks past the end, when its first 512 bytes are there. |
| FlacMeta.ReadBody | core/codecs/flac_meta.c:347-372 | A block's effect depends on its type, its declared length and its own bytes alone, and the source ends at its boundary or at the end of the file. |
| FlacMeta.Read | core/codecs/flac_meta.c:320-381 | Every header is read at a true block boundary, up to the last-block flag or 64 blocks: whatever the file, cut short or not, and whether or not seeks past its end are granted, the result is that of walking it. |
| FlacMeta.CutCommentExactly | core/codecs/flac_meta.c:266-291 | The two kinds of source give the same tags, but that one comment: it is the one the file ends in, if there is one and its first 512 bytes are there; a whole block has none. |
| FlacMeta.CutHappens | core/codecs/flac_meta.c:273-289 | A comment of 600 bytes in a file that ends behind its first 512. |
| FlacMeta.WalkAgrees | core/codecs/flac_meta.c:320-381 | Of a file that has its blocks whole both read the same metadata. |
| FlacMeta.DurationExactly | core/codecs/flac_meta.c:299-316 | The reported duration is the nearest second exactly when the rounded quotient fits 32 bits. |
| FlacMeta.DurationWraps | core/codecs/flac_meta.c:312-315 | At one sample a second a stream of 2^32 samples is reported as empty. |
| FlacMeta.StreaminfoWord | core/codecs/flac_meta.c:299-310 | The bit fields are those of the 64-bit big-endian word at offset 10: the rate its top 20 bits, the number of samples its low 36. |
| FlacFile.ReadBack | core/codecs/flac_meta.c:241-381 | A file of up to 64 blocks, each written from what it says — rate and samples, seek points, vendor and comments, or anything else — is read as saying that, in order, whatever audio follows. |
| NameHash.DecodeEncode | core/kernel/main.c:619-644 | The decoder undoes the encoder, whatever follows. |
| NameHash.NextCodePoint | core/kernel/main.c:619-644 | One code point and the position after it, with one byte of progress on malformed input and whole overlong sequences consumed. |
| NameHash.DeviceNameHash | core/kernel/main.c:651-680 | The device's loop computes the folded hash of the string's code points. |
| NameHash.NormalizeLoop | tools/build_index.py:64-76 | The host's loop computes the canonical form. |
| NameHash.HostNameHash | tools/build_index.py:107-114 | The host's loop computes FNV-1a over the canonical form's UTF-8. |
| NameHash.HashParity | core/kernel/main.c:646-680 | Host and device agree on every name made of Unicode scalars other than NUL. |
| NameHash.KeysExactly | core/kernel/main.c:646-680 | Names have one canonical form exactly when they agree up to the case of A to Z and the typographic forms of quotes and dashes. |
| NameHash.KinHashAlike | core/kernel/main.c:646-680 | Such names hash alike, whichever the host stored and the device met. |
| KnownValues.NameVectors | core/tests/kernel/name_hash_vectors.h:46-63 | The repository's own vectors: no name, and "A - B" with any of three dashes. |
| KnownValues.UnicodeVectors | core/kernel/main.c:619-644 | The examples of RFC 3629 and RFC 2781 encode as given there. |
| KnownValues.ShortNameVector | core/tests/scripts/make_fat32_image.py:63-67 | The checksum of one 8.3 name as the repository's image builder computes it. |
| NameHash.Utf16RoundTrip | core/fs/fat32.c:403-423 | Reading UTF-16 back, surrogate pairs joined, gives the text. |
| NameHash.LfnToUtf8 | core/fs/fat32.c:403-438 | The conversion writes the encoding of as many characters as have headroom, within the buffer, terminated. |
| NameHash.LfnExactly | core/fs/fat32.c:403-438 | A long name converts to exactly its UTF-8 form when all but its last character take fewer than cap - 4 bytes, and never otherwise. |
| NameHash.LongNameParity | core/fs/fat32.c:403-438 | So a long name that fits hashes on the device to what the host stored. |
| NameHash.ExposesExactly | core/fs/fat32.c:403-438 | When more units are converted than a name has, the bytes written depend on what lies in memory behind it exactly when the characters it does settle leave headroom. |
| MergeSort.MergeStable | core/kernel/main.c:2262-2280 | Merging sorted runs keeps, for every value, the left run's ties before the right run's. |
| MergeSort.PassMerges | core/kernel/main.c:2262-2280 | A pass over sorted runs leaves sorted runs of twice the width. |
| MergeSort.MergeRuns | core/kernel/main.c:2270-2277 | The copying loops compute the merge, left run first on ties. |
| MergeSort.SortIndex | core/kernel/main.c:2262-2280 | For every total preorder: sorted, the same elements, and ties in their old order. |
| Library.Invert | core/kernel/main.c:2332-2332 | The scratch array becomes the inverse of the order. |
| Library.SwapSettles | core/kernel/main.c:2333-2343 | A swap along a cycle keeps everything else that is still to be moved consistent. |
| Library.SwappedFixes | core/kernel/main.c:2333-2343 | Each swap settles one more place for good: why the loop ends. |
| Library.ApplyCycles | core/kernel/main.c:2333-2344 | Following the cycles turns the list into exactly the wanted one and leaves the rest of the array alone. |
| Library.StableOrder | core/kernel/main.c:2303-2317 | Of two that tie, the one listed earlier comes first. |
| Titles.Compare | core/kernel/main.c:1737-1746 | The loop computes the comparison of the two titles. |
| Titles.Opposite | core/kernel/main.c:1737-1746 | Exchanging the titles changes the sign. |
| Titles.Chained | core/kernel/main.c:1737-1746 | What comes before what comes before comes before, for signed and unsigned `char` alike. |
| Titles.TieExactly | core/kernel/main.c:1737-1746 | Two titles tie exactly when they differ in nothing but the case of their letters. |
| Titles.NegativeExactly | core/kernel/main.c:1737-1746 | The first of two titles comes first exactly when, where they first differ, case aside, its character is the smaller, a title coming before those it begins. |
| Titles.FoldedIs | core/kernel/main.c:1740-1742 | Case aside means: bytes up to the terminator, a to z as A to Z and nothing else changed. |
| Library.SortAlbums | core/kernel/main.c:2310-2345 | Sort, invert and cycle-following together put at place k what was at place order[k], in title order, ties as listed. |
| AlbumIndex.SearchesAgree | core/kernel/main.c:1985-2000 | First match and last match agree on every cluster exactly when clusters are unique. |
| AlbumIndex.AlbumList.Intern | core/kernel/main.c:1765-1777 | Cluster 0, duplicates and overflow add nothing, overflow is flagged, and clusters stay unique. |
| AlbumIndex.InternedLast | core/kernel/main.c:1765-1777 | A folder not yet listed is listed last, under its name or the first 64 bytes of it. |
| AlbumIndex.BucketSearch | core/kernel/main.c:1968-1994 | Searching a cluster's chain finds the last folder with it. |
| AlbumIndex.AlbumList.BuildLookup | core/kernel/main.c:1968-1983 | Every chain lists its bucket's folders, last first. |
| AlbumIndex.AlbumList.Finish | core/kernel/main.c:2293-2348 | The list is sorted by title in place and indexed, and its clusters stay unique. |
| AlbumIndex.AlbumList.ByCluster | core/kernel/main.c:1985-2000 | Through the chains or by scan, the same folder. |
| AlbumIndex.ByTitlePreorder | core/kernel/main.c:2293-2297 | Comparing albums by title is a total preorder, so the sort applies. |
| AlbumIndex.SortedByTitle | core/kernel/main.c:2310-2345 | In the finished list none comes before an earlier one in that order, and titles that differ in nothing but case stand as they were loaded. |
| ArtCache.Victim | core/ui/artcache.c:239-254 | The way given up is unused, or else all are used and none was drawn longer ago. |
| ArtCache.Oldest | core/ui/artcache.c:305-333 | The request served has waited longest; there is none exactly when nothing waits. |
| ArtProgress.VictimIsOffScreen | core/ui/artcache.c:225-260 | With at most sixteen albums on screen the way given up is not one of theirs. |
| ArtProgress.RoundKeeps | core/ui/artcache.c:225-260 | Once the screen was drawn, drawing it again evicts none of it, changes no cover and adds no work, even where a failed read gave a way back. |
| ArtProgress.PumpWorks | core/ui/artcache.c:305-375 | A pump with something waiting gets strictly closer whatever the disk does. |
| ArtProgress.ScreenSettles | core/ui/artcache.c:225-375 | Whatever the cache held, after sixteen plus twice the number of rows rounds with a pump each, every row has its cover loaded or is known to have none. |
| CoverCache.CoverCache.Register | core/ui/artcache.c:157-195 | Re-registering the same sidecars changes nothing; different ones drop the pixels and the verdict; every cover and every verdict stays true of what is registered. |
| CoverCache.CoverCache.Draw | core/ui/artcache.c:225-260 | Returns the cover if loaded, which is then one the registered sidecars hold, and claims a way otherwise. |
| CoverCache.CoverCache.LoadOne | core/ui/artcache.c:272-303 | Pixels only from a valid sidecar with that cluster and size; "absent" only when the file was read and is none; "unreadable" only for a failing disk or a broken chain. |
| CoverCache.CoverCache.PumpOne | core/ui/artcache.c:305-375 | One cover is loaded and the outcome recorded; covers stay those of the registered sidecars, and a verdict of no cover is true unless the disk could not be read or a chain is broken. |
| CoverCache.PeekShows | core/ui/artcache.c:216-235 | The pixels a row is given are those of the sidecars registered for it now. |
| CoverCache.ShowsOne | core/ui/artcache.c:272-303 | What an album can show is determined by the disk: there is at most one such picture. |
| CoverCache.CoverReadBack | core/ui/artcache.c:272-303 | A sidecar written from its sides and pixels is a cover exactly when both sides are from 1 to 120, and shows those pixels. |
| CoverCache.CoverWasWritten | core/ui/artcache.c:272-303 | Nothing else is one. |
| CoverCache.AskedShows | core/ui/artcache.c:157-195 | A registration shows its small sidecar when that is a cover, else its large one when the small one is known to be none. |
| CoverCache.SettledShows | core/ui/artcache.c:216-375 | On a reliable disk a settled row whose sidecars have unbroken chains and hold a cover shows exactly that cover: it is not written off. |
| CoverRuns.Drive | core/ui/artcache.c:157-375 | In any run of registrations, draws, looks and pumps, whatever the disk does, the pixels a row is given are those of the sidecars registered for it last. |
| CoverRuns.FillScreen | core/ui/artcache.c:225-375 | Drawing at most sixteen rows and pumping once, sixteen plus twice the number of rows times, settles every row; on a reliable disk every row with readable sidecars that hold a cover then shows it. |

## Left out

- Rendering, the event loop, the player engine and codecs, hardware registers, the scheduler: user interface and hardware, not modelled.
- FatStream.Stream.Read: reads that could return 2 GiB or more are excluded, because the count is returned as a signed 32-bit number.
- FatStream.ReadFile: the same limit, on the request.
- Fat32.FatVolume.ReadDataSector: the two sector caches belong to one mounted volume here; the source shares them between volumes and tags them with the volume.
- Fat32.FatVolume.Next: cached sectors are values, not byte arrays updated in place.
- FileReads.Drive: reads of 2 GiB and more of files that have as much, for the same reason.
- DirWalk.ReadDir: the callback is a predicate that may stop the walk; its own effects are not modelled, nor what one that looks at an over-long name makes of the memory behind it.
- LongNames.OverrunExactly: the long-name accumulator is a value; what lies behind it in memory is a parameter of `NameHash.ExposesExactly`.
- Fat32.FatVolume.constructor: the disk reaches to the end of the volume and every sector address fits 32 bits; on a shorter disk the missing sectors would only be read errors, and `FileLba.AliasExactly` says what goes wrong, and when, without the second.
- Lookup by name, the displayed form of 8.3 names and the free-cluster count of `core/fs/fat32.c`: they would only add easy members.
- RecordCodec.Encode: settings are unbounded integers; the source's `int` could overflow only in the distance to a backlight choice, near its extremes.
- ConfigStore.ConfigStore.Load: after a save on the same mount, only when the file found is the one saved to; a missing volume or settings pointer is not modelled.
- CrashSafety.CrashSafe: both slots are readable at each reload, and an unacknowledged write leaves its slot old, new or undecodable; `CrashSafety.UnreadableExactly` says what happens without the first.
- SettingsRuns.Drive: the same two conditions, told from what each act showed; the root folder must not use the settings file's first cluster.
- FileSource.FileSource.Open: files of less than 2 GiB whose chain ends; on one that loops the guard's error is one more flagged failure.
- FileSource.FileSource.Seek: targets of 2 GiB and more are excluded; the source computes them in a 32-bit `long`.
- FlacMeta.Read and M3uParser.Parser.Parse: their source owes them what `ByteSource.Owes` says; `FileSource` does while nothing fails (`FileSource.FileSource.ReadWell`), and otherwise only as far as `Retries` tells. It grants all seeks past the end, as the read-ahead does, or none.
- DiskBuf.DiskBuf.Seek: targets of 2 GiB and more are excluded; the source narrows them to `int`.
- ReadAhead.ReadAhead.Seek: the same limit.
- Transparency.DriveDisk: the run ends before the first seek beyond that limit, which the driver reports by answering no more.
- Transparency.Drive: likewise.
- Hysteresis.RestsBetweenBursts: runs without seeks and read errors; for a stale end flag after a seek see `Hysteresis.StaleEnd`.
- PcmRing.Linear: each atomic load or store is one sequential step, which the release and acquire orderings provide; nothing below that is modelled.
- PcmCounts.FillByThird: both indices may move on by less than 2^32 less the capacity between the two loads.
- Arena.Arena.Alloc: requests that overflow `size_t` and are granted nevertheless are excluded (see `Arena.CheckExactly`); sizes are 32 bits, as on the device.
- Arena.Arena.ResizeLast: the same exclusion, by `Arena.ResizeCheckExactly`.
- Arena.Arena.Realloc: the same exclusions.
- M3uParser.Parser.Parse: a source that claims to have returned more than it was asked for, and null arguments, are not modelled; strings have explicit lengths beside their terminators.
- FlacMeta.Read: what a tag means (`apply_comment` and its number parsers) is a parameter, because its many keys would only add easy members.
- AlbumIndex.AlbumList.Finish: what of a folder's name is its title (`split_artist_album`) is a parameter; bytes above 127 compare as the compiler's `char` has them, either way.
- AlbumIndex.AlbumList.ByCluster: the song lookup by hashed name has the same chains and is not repeated.
- CoverCache.CoverCache.LoadOne: the thumbnail's averaging is an uninterpreted function, and the two bitmaps are arrays of flags.
- ArtProgress.ScreenSettles: the 32-bit draw clock must not wrap during the run, and the set of rows on screen stays the same.
- CoverRuns.FillScreen: the same two conditions.
