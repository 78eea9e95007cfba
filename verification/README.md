# Verified models of Kurtosis' algorithmic cores

Kurtosis packages, launches and inspects environments of containerised services. Most of its code
drives container engines and RPC endpoints. This project models the parts of it that are algorithms
or protocols, and proves what they do, on all inputs and over whole runs:

- **File streaming.** A payload read from an `io.Reader` is cut into chunks of at most 3 MiB. Each
  chunk travels with the hash of the one before it; the receiver checks the hashes and reassembles.
  `GrpcStreamIo` has the sender and receiver loops and the client and server operations;
  `ChunkChain` says which channel faults the hash chain reveals.
- **IPv4 allocation.** `SubnetAllocator` searches a subnet for an address whose dotted-decimal form
  is not in the caller's map of taken addresses. `Uint32` and `Decimal` supply the machine
  arithmetic and the rendering.
- **Tree listing and content digest.** `TreeListing` walks a file tree and sorts what it found;
  `ContentDigest` has the bytes written to the MD5 hasher, `DigestRoots` says when the
  spelling of the root shows in them, and `DigestCollisions` has structures that they confuse. `Filepath` and `Ordering` have the parts of
  Go's `filepath`, `strings` and `sort` that matter here.
- **Fan-out and fan-in.** `FanOut` is the step system of a bounded worker pool reporting on a
  buffered channel; `OperationParallelizer` and `FilesArtifactsExpander` are its two users.
- **Contexts store.** `ContextsConfig` has the configuration on values, `ContextsConfigStore` the
  store and persistence classes, `StoreSerialisability` the interleavings under the store's lock,
  `FirstUse` those of the unguarded lazy initialisation.
- **CLI.** `ConfigMigration` runs version migrations, `PositionalArgs` checks declared arguments and
  assigns tokens to them, `LogRetention` deletes old log files.

SHA-1 (FIPS 180-4, section 6.1) with hex encoding is a function parameter; the lemmas name what they
assume of it: it never gives the empty string (`NeverBlank`) and has no collision among the chunks in
play (`CollisionFree`). Message constructors and extractors, disk failures, random UUIDs, migrators,
deserializers and schedules are parameters too. Characters stand for bytes, as in Go strings.

To verify the whole project: `dafny verify dfyconfig.toml`.

## Where code and documentation disagree

The model follows the code. These are the differences that the proofs brought out.

- The streaming README says a hash that differs means a chunk was lost, and that a lost chunk is
  noticed. The chain notices no truncation, no change to the last chunk, and not the loss of one of two equal
  neighbouring chunks (`AcceptedDeliveries`, `AcceptedIffOnlyLastChunkTampered`, `EqualNeighbourDropUnseen`).
  It catches every other loss, repetition and reordering exactly if no two chunks are equal
  (`ChainDetectsAllIffDistinct`).
- Chunks are documented as fixed-size. They are if and only if every sent read but the last fills the
  buffer and the last carries something (`FixedSizeIffReadsFill`); two short reads give two short chunks
  (`ShortReadsGiveShortChunks`).
- `PipeReader` is documented to pipe the transferred data. Its extractor hands the validator an empty
  slice, so it rejects every undisturbed stream with a non-empty chunk before the last
  (`PipedReceiverOnFaithfulStream`); if the data were handed back it would agree with `ReceiveData`
  (`PipeReturningDataAgrees`).
- The allocator is documented to return an address from the subnet. With prefix length 32 it does not
  (`FinishOfSingleAddress`), and a full subnet ending at 255.255.255.255 makes the counter wrap
  (`FullTopSubnetStartsOver`) or, with every address taken, run for ever (`DivergesIff`, `CallHangsIff`).
- A comment in the digest loop says that a change of structure changes the hash even if the files remain the
  same. Among trees with equally many paths, equally long paths and equally long contents that is so if and
  only if paths or contents differ (`StreamDeterminesPathsAndContents`), so all but swaps of kind between
  empty files and empty directories show (`StreamDeterminesTree`, `SwappedKindsCollide`). Without equal
  lengths a name can run into the content after it, and two files can exchange contents
  (`PathRunsIntoContent`, `ExchangedContentsCollide`).
- The hash is meant to be that of the content. It depends on how the root was spelled: the listed paths are
  cleaned, and the root is taken out as it was given. For a root that names something, each path is written as
  it is below the root if and only if the root was given clean (`KeptIffRootIsClean`). So `./dir`, `a//b`,
  `dir/.` and trailing separators change the hash of every directory that is not empty (`RootShowsIff`,
  `DotSlashShowsIff`, `TrailingSeparatorsShowIff`), and so do all spellings of "." (`CurrentDirectoryShowsIff`).
  Other spellings of "/", such as `/.`, change it if and only if they occur in a path (`FileSystemRootShowsIff`).
- Log cleanup is meant to keep the newest seven log files. It keeps the last seven entries of any kind, and stops at
  the first file that cannot be removed. So it leaves the last seven logs listed if and only if none of the
  surplus ones is stuck and the next one is stuck or already among the last seven entries
  (`KeepsLastSevenLogsIff`); with nothing stuck, if and only if the last seven entries are all logs or no log is
  listed before them (`KeepsNewestSevenIff`). The last listed are the newest if timestamps have one width
  (`LogNameOrder`).
- First use is meant to create one default configuration. Two readers may each write one
  (`TwoReadersRace`). If in the first operation drawing the UUID or writing fails, the store stays unusable
  however the environment recovers, and these are the only such failures (`StoreRecoversIff`); among several
  readers that is so if no other is about to create the file (`FailedWriteStrandsIff`, `StrandedForGood`).

## Model

| member | source | states |
|---|---|---|
| ChunkChain.AcceptedDeliveries | grpc-file-transfer/golang/grpc_file_streaming/grpc_stream_io.go:30-115 | For any lost, repeated or reordered delivery: accepted if and only if it is empty, or starts with the first message and each later chunk follows one equal to its predecessor at the sender |
| ChunkChain.ChainDetectsAllIffDistinct | grpc-file-transfer/golang/grpc_file_streaming/grpc_stream_io.go:30-115 | Accepted deliveries are prefixes of what was sent, for every delivery, if and only if no two chunks are equal |
| ChunkChain.AcceptedDeliveryYieldsPayloadPrefix | grpc-file-transfer/golang/grpc_file_streaming/grpc_stream_io.go:80-115 | With distinct chunks, whatever is accepted reassembles to a prefix of the payload |
| ChunkChain.EqualNeighbourDropUnseen | grpc-file-transfer/golang/grpc_file_streaming/grpc_stream_io.go:95-105 | Dropping one of two equal neighbouring chunks is accepted, whatever the hash function |
| ChunkChain.TamperingNeedsACollision | grpc-file-transfer/golang/grpc_file_streaming/grpc_stream_io.go:95-105 | With the sender's hash column, an accepted change to a chunk other than the last exhibits a hash collision; nothing is assumed of the hash |
| ChunkChain.AcceptedIffOnlyLastChunkTampered | grpc-file-transfer/golang/grpc_file_streaming/grpc_stream_io.go:87-115 | With the sender's hash column, accepted if and only if every chunk but the last is the sender's |
| ChunkChain.FaithfulDeliveryAccepted | grpc-file-transfer/golang/grpc_file_streaming/grpc_stream_io.go:30-115 | An undisturbed chain is accepted and carries the chunks |
| ChunkChain.PipeAcceptsFaithfulStreamIff | grpc-file-transfer/golang/grpc_file_streaming/client_stream.go:92-99 | A validator that sees blanked data accepts an undisturbed chain if and only if every chunk but the last is empty |
| GrpcStreamIo.SentChunksCoverPayload | grpc-file-transfer/golang/grpc_file_streaming/grpc_stream_io.go:13-49 | For every legal reader the chunks sent are exactly the payload, none over 3 * 1024 * 1024 bytes |
| GrpcStreamIo.SentChunksAreReads | grpc-file-transfer/golang/grpc_file_streaming/grpc_stream_io.go:36-49 | Every read becomes a chunk, empty ones too, but a last one that fails (its data are dropped) or brings the end of file without data |
| GrpcStreamIo.MessagesCarryChain | grpc-file-transfer/golang/grpc_file_streaming/grpc_stream_io.go:50-63 | Message i is built from chunk i and the hash of chunk i - 1, the first from no hash |
| GrpcStreamIo.FirstSendFaultIs | grpc-file-transfer/golang/grpc_file_streaming/grpc_stream_io.go:50-59 | The sender stops at the first chunk that cannot be built or is refused, and the failure to build is the one reported if both would apply |
| GrpcStreamIo.FixedSizeIffReadsFill | grpc-file-transfer/golang/grpc_file_streaming/grpc_stream_io.go:19-49 | The chunks are the fixed-size pieces of what was sent if and only if every sent read but the last fills the buffer and the last carries something |
| GrpcStreamIo.ShortReadsGiveShortChunks | grpc-file-transfer/golang/grpc_file_streaming/grpc_stream_io.go:36-49 | A legal reader whose two-byte payload goes out as two chunks, where one holds it |
| GrpcStreamIo.SendChunk | grpc-file-transfer/golang/grpc_file_streaming/grpc_stream_io.go:48-63 | One chunk's message carries the previous hash, is sent unless it cannot be built or is refused, and yields the hash for the next |
| GrpcStreamIo.SendMessagesToStream | grpc-file-transfer/golang/grpc_file_streaming/grpc_stream_io.go:23-66 | Terminates for every legal reader (short reads, data with EOF, empty reads); sends the chain over what was read up to the first fault, and reports that fault, or a read failure only after everything before it was sent |
| GrpcStreamIo.ReadMessagesFromStream | grpc-file-transfer/golang/grpc_file_streaming/grpc_stream_io.go:75-116 | Result, messages taken off the stream and bytes piped are those of the first message that fails to open or breaks the chain, if any |
| GrpcStreamIo.FirstFaultIs | grpc-file-transfer/golang/grpc_file_streaming/grpc_stream_io.go:87-100 | The fault found is that of the first message that fails to open or carries another hash than that of the data before it, opening first |
| GrpcStreamIo.ReceiverStopsAtFirstFault | grpc-file-transfer/golang/grpc_file_streaming/grpc_stream_io.go:85-115 | The receiver takes messages up to and including the first that does not pass and reports why; if all pass, the stream's end decides |
| GrpcStreamIo.AssembledIffAccepted | grpc-file-transfer/golang/grpc_file_streaming/grpc_stream_io.go:87-115 | Success if and only if the stream ends in EOF, every message opens and the chain holds; then the result is all contents in order |
| GrpcStreamIo.RoundTrip | grpc-file-transfer/golang/grpc_file_streaming/grpc_stream_io.go:23-116 | For every payload and every legal reader, faithful delivery makes the receiver return exactly the payload |
| GrpcStreamIo.ReceiverFaultDetection | grpc-file-transfer/golang/grpc_file_streaming/grpc_stream_io.go:23-116 | The exact fault characterisation at the receiver's own result, over real messages, with the payload-prefix conclusion for distinct chunks |
| GrpcStreamIo.TamperBindingAtReceiver | grpc-file-transfer/golang/grpc_file_streaming/grpc_stream_io.go:87-115 | At the receiver's result, which is what the server's consumer is given: with the sender's hash column, accepted if and only if the stream is complete and every chunk but the last is the sender's; the content is then the payload up to the last chunk |
| GrpcStreamIo.ClientSendData | grpc-file-transfer/golang/grpc_file_streaming/client_stream.go:27-58 | Sends the chain, closes and takes one response; on any fault stops there, with the stream not closed after a send fault |
| GrpcStreamIo.ServerReceiveData | grpc-file-transfer/golang/grpc_file_streaming/server_stream.go:48-75 | The consumer runs once, on fully accepted content, and not at all otherwise; a response is sent only if it succeeded |
| GrpcStreamIo.PipeReader | grpc-file-transfer/golang/grpc_file_streaming/client_stream.go:83-106 | The data of every message pulled, the rejected one included, goes down the pipe; the verdict is that on blanked data, and what its consumer sees after the data is EOF on success and a closed pipe on failure |
| GrpcStreamIo.PipedReceiverPasses | grpc-file-transfer/golang/grpc_file_streaming/client_stream.go:92-99 | On any stream: behind the pipe a message passes if and only if it opens and carries the hash of the empty chunk, the first no hash |
| GrpcStreamIo.PipedReceiverOnFaithfulStream | grpc-file-transfer/golang/grpc_file_streaming/client_stream.go:92-99 | An undisturbed stream is accepted if and only if every chunk but the last is empty; otherwise it fails right after the first non-empty chunk, and exactly how much was piped by then |
| GrpcStreamIo.PipeReturningDataAgrees | grpc-file-transfer/golang/grpc_file_streaming/client_stream.go:92-99 | With the data handed back, the pipe would hold what the buffered receiver returns on every stream, and on failure the data up to the offending message |
| GrpcStreamIo.PipeReturningDataRoundTrip | grpc-file-transfer/golang/grpc_file_streaming/client_stream.go:83-106 | With the data handed back, every undisturbed transfer would pipe the whole payload without error |
| Uint32.BitOfResult | container-engine-lib/lib/network_helpers/network_helpers.go:45-45 | AND, OR and XOR compute every bit of their result from that bit of their operands |
| Uint32.BitOfPrefixMask | container-engine-lib/lib/network_helpers/network_helpers.go:45-45 | A prefix mask has zeros in its k lowest bits and ones above |
| Uint32.AlignedIffMultiple | container-engine-lib/lib/network_helpers/network_helpers.go:45-45 | An address is aligned to k host bits if and only if it is a multiple of 2^k |
| Uint32.ClearLowIsAligned | container-engine-lib/lib/network_helpers/network_helpers.go:45-45 | The block an address lies in starts at an aligned address |
| Uint32.AndPrefixMask | container-engine-lib/lib/network_helpers/network_helpers.go:45-45 | Bitwise AND with a prefix mask clears exactly the host bits |
| Uint32.XorPrefixMask | container-engine-lib/lib/network_helpers/network_helpers.go:45-45 | XOR of a prefix mask with all ones is the block size less one |
| Uint32.OrBelowCleared | container-engine-lib/lib/network_helpers/network_helpers.go:45-45 | OR of cleared address and host mask is their sum |
| Uint32.BitwiseStaysInWidth | container-engine-lib/lib/network_helpers/network_helpers.go:45-45 | The bitwise operations never leave 32 bits |
| Decimal.ValueOfDigits | container-engine-lib/lib/network_helpers/network_helpers.go:51-51 | Decimal rendering reads back as the number |
| Decimal.ValueOfSnoc | container-engine-lib/lib/network_helpers/network_helpers.go:51-51 | Reading counts each digit once, after ten times what is before it |
| Decimal.DigitsAreNumeral | container-engine-lib/lib/network_helpers/network_helpers.go:51-51 | A rendering is all digits, without a leading zero unless it is 0 |
| Decimal.DigitsIsTheNumeral | container-engine-lib/lib/network_helpers/network_helpers.go:51-51 | Every numeral without a leading zero is the rendering of the number it reads as |
| SubnetAllocator.OctetsRoundTrip | container-engine-lib/lib/network_helpers/network_helpers.go:28-50 | Reading big-endian undoes writing big-endian, for every 32-bit value |
| SubnetAllocator.KeyInjective | container-engine-lib/lib/network_helpers/network_helpers.go:49-52 | Distinct 32-bit addresses never share a key in the map |
| SubnetAllocator.KeyText | container-engine-lib/lib/network_helpers/network_helpers.go:49-52 | The key's text is four decimal numerals with dots between them that read as the four bytes, highest first |
| SubnetAllocator.KeyOfTenNetwork | container-engine-lib/lib/network_helpers/network_helpers.go:49-52 | For instance "10.0.0.1" |
| SubnetAllocator.BigEndianBytes | container-engine-lib/lib/network_helpers/network_helpers.go:28-39 | Four bytes are read highest first |
| SubnetAllocator.NetworkAddressBytes | container-engine-lib/lib/network_helpers/network_helpers.go:32-39 | The address is the four bytes given, or the last four of sixteen |
| SubnetAllocator.StartIsNext | container-engine-lib/lib/network_helpers/network_helpers.go:42-42 | The search starts after the address, or at 0.0.0.0 after the highest |
| SubnetAllocator.FinishBits | container-engine-lib/lib/network_helpers/network_helpers.go:45-45 | For any mask, contiguous or not: the last address has the start's bits under the mask and ones elsewhere |
| SubnetAllocator.MarkingAddsOne | container-engine-lib/lib/network_helpers/network_helpers.go:52-54 | The string-keyed map refines a set of addresses: marking one adds exactly that address |
| SubnetAllocator.AllocateRefinesSet | container-engine-lib/lib/network_helpers/network_helpers.go:47-57 | Success hands out a free address and adds exactly it to the set; failure changes nothing |
| SubnetAllocator.AllocateByText | container-engine-lib/lib/network_helpers/network_helpers.go:47-57 | By the map's own keys: an address is free if its text is absent or marked false; what is handed out is free, what is passed over is not, and its text is the one entry that changes |
| SubnetAllocator.FinishIsBlockEnd | container-engine-lib/lib/network_helpers/network_helpers.go:42-45 | For every address and prefix mask the search ends with the block its start lies in |
| SubnetAllocator.FinishOfNetwork | container-engine-lib/lib/network_helpers/network_helpers.go:42-45 | For an aligned network with host bits the range is (base, base + 2^k - 1], without overflow |
| SubnetAllocator.FinishOfSingleAddress | container-engine-lib/lib/network_helpers/network_helpers.go:42-45 | With a 32-bit prefix the one address tried is the one after the subnet |
| SubnetAllocator.DivergesIff | container-engine-lib/lib/network_helpers/network_helpers.go:47-56 | The loop never ends if and only if its bound is 255.255.255.255 and every 32-bit address is taken |
| SubnetAllocator.LoopFinds | container-engine-lib/lib/network_helpers/network_helpers.go:47-56 | Wherever the loop, run step by step with its wrapping counter, stops, it is what the search says |
| SubnetAllocator.PutUint32 | container-engine-lib/lib/network_helpers/network_helpers.go:50-50 | Writes four bytes in place, big-endian, and no others |
| SubnetAllocator.GetFreeIpAddrFromSubnet | container-engine-lib/lib/network_helpers/network_helpers.go:23-58 | Returns the first free address of the range (after a wrap, the lowest free one) and leaves the caller's map as the specification does |
| SubnetAllocator.HandsOutSubnetAddressIff | container-engine-lib/lib/network_helpers/network_helpers.go:42-57 | On a network address, what is handed out is a host of the subnet if and only if there are host bits and either the subnet ends below 255.255.255.255 or one of its hosts is free |
| SubnetAllocator.HandsOutHostIff | container-engine-lib/lib/network_helpers/network_helpers.go:42-57 | For every subnet address, host bits set or not: what is handed out is a host of the subnet if and only if something in the searched range is free and the address is not the last of its subnet (or the subnet is everything and 0.0.0.0 taken), or else the search wraps and everything up to the network address is taken |
| SubnetAllocator.FullTopSubnetStartsOver | container-engine-lib/lib/network_helpers/network_helpers.go:47-56 | A full subnet ending at 255.255.255.255 hands out the lowest free address outside it, 0.0.0.0 if free |
| SubnetAllocator.RunEnumerates | container-engine-lib/lib/network_helpers/network_helpers.go:42-57 | For every range: successive calls hand out its free addresses in order, then, if it ends at 255.255.255.255, the free ones below its start in order, then no more |
| SubnetAllocator.CallHangsIff | container-engine-lib/lib/network_helpers/network_helpers.go:47-56 | After n calls the next one never returns if and only if the range ends at 255.255.255.255 and those calls took every free address |
| SubnetAllocator.FreeListCount | container-engine-lib/lib/network_helpers/network_helpers.go:47-56 | There are as many free addresses in a range as its size less those taken in it |
| SubnetAllocator.NetworkRun | container-engine-lib/lib/network_helpers/network_helpers.go:23-58 | Any number of calls for any network with host bits: every free host once, in increasing order, exactly 2^k - 1 less the taken hosts; then failures, or for a network ending at 255.255.255.255 the free addresses up to its base and then a call that never returns |
| Filepath.ParseOfRender | path-compression/path_compresssion.go:131-131 | A clean path reads back as its components: cleaning loses nothing on them |
| Filepath.CleanIdempotent | path-compression/path_compresssion.go:131-131 | Cleaning a path twice is cleaning it once, for every string |
| Filepath.JoinDescends | path-compression/path_compresssion.go:131-131 | Joining an entry's name to any directory path goes exactly one component down |
| Filepath.CleanOfLonger | path-compression/path_compresssion.go:131-131 | Cleaning component by component: empty and "." stay, ".." goes up if there is anything to go up from, other names go down |
| Filepath.CleanOfOne | path-compression/path_compresssion.go:131-131 | What a path of one component cleans to, rooted or not |
| Filepath.RenderedText | path-compression/path_compresssion.go:131-131 | Paths without names are "/" and ".", with one it is that name after the root |
| Filepath.RenderedLonger | path-compression/path_compresssion.go:131-131 | One name more is one separator and the name more |
| Filepath.TrimRightRemovesSeparators | path-compression/path_compresssion.go:118-118 | Trimming removes all separators at the end and nothing else |
| Filepath.RemoveFirstRemoves | path-compression/path_compresssion.go:54-54 | Removing takes out the first occurrence and joins what is around it |
| Ordering.PrefixComesFirst | path-compression/path_compresssion.go:113-113 | A string comes before everything that extends it |
| Ordering.FirstDifferenceDecides | path-compression/path_compresssion.go:113-113 | Otherwise the first byte that differs decides the order |
| Ordering.SortPutsInOrder | path-compression/path_compresssion.go:113-113 | Sorting keeps the strings and puts none before one that is less |
| Ordering.SortedIsUnique | path-compression/path_compresssion.go:113-113 | A multiset of strings has one sorted arrangement |
| Ordering.SortDependsOnElements | path-compression/path_compresssion.go:113-113 | Sorting forgets the order of the input |
| Ordering.SortAfterPrefix | path-compression/path_compresssion.go:113-113 | Sorting commutes with putting one prefix before all strings |
| TreeListing.ListFilesInPathInternal | path-compression/path_compresssion.go:117-144 | Appends the listing of the tree to what the slice held, or nothing and an error if the path is missing |
| TreeListing.ListFilesInPathDeterministic | path-compression/path_compresssion.go:107-115 | The sorted listing of the trimmed path; for a file, in either mode, that path alone |
| TreeListing.FileListsItself | path-compression/path_compresssion.go:140-142 | A file lists exactly itself, once, in recursive and in flat mode |
| TreeListing.WalkGoesEntryByEntry | path-compression/path_compresssion.go:130-139 | Before sorting, every entry is followed in recursive mode by what is below it, and in flat mode by the next |
| TreeListing.ListEntriesRender | path-compression/path_compresssion.go:130-139 | The path strings the walk builds by repeated joining are the relative paths rendered below the cleaned root |
| TreeListing.RelPathsMembers | path-compression/path_compresssion.go:125-139 | A relative path is walked if and only if it leads to a descendant (in flat mode, a child) |
| TreeListing.ListingCoversTree | path-compression/path_compresssion.go:117-144 | Every descendant (in flat mode, every child) is listed exactly once, and nothing else |
| TreeListing.ReorderedIsSameTree | path-compression/path_compresssion.go:126-130 | Directories with the same entries in any order, and same trees below, are the same tree |
| TreeListing.ListingIsDeterministic | path-compression/path_compresssion.go:104-115 | The sorted listing is the same for every order in which directories are enumerated |
| ContentDigest.WriteToHasher | path-compression/path_compresssion.go:43-61 | Writes each listed path, with the first occurrence of the given root taken out, then the file's content |
| ContentDigest.DirectoriesComeFirst | path-compression/path_compresssion.go:48-61 | Every directory is hashed before anything below it |
| ContentDigest.StreamOfNestedFile | path-compression/path_compresssion.go:48-61 | The stream of a file in a directory, written out: directory, then file, then content |
| ContentDigest.DigestStreamOfRoot | path-compression/path_compresssion.go:53-61 | For every root string, clean or not, the stream is the tree's own up to what the root's removal leaves of each listed path |
| ContentDigest.DigestIsRootIndependent | path-compression/path_compresssion.go:53-61 | The same tree under two clean roots, enumerated in any orders, gives the same stream |
| ContentDigest.DigestWithoutTrailing | path-compression/path_compresssion.go:53-61 | Without a trailing separator each path is written as `/rel` |
| ContentDigest.DigestWithOneTrailing | path-compression/path_compresssion.go:53-61 | With one trailing separator each path is written as `rel` |
| ContentDigest.DigestWithMoreTrailing | path-compression/path_compresssion.go:53-61 | With two or more nothing is taken out: the whole path is written |
| ContentDigest.TrailingSeparatorsShowIff | path-compression/path_compresssion.go:53-61 | For a clean root and any trailing separators the stream is that of the root alone if and only if there are none or the directory is empty |
| ContentDigest.DigestOfFileRoot | path-compression/path_compresssion.go:53-61 | A file root is hashed by content alone, or with its path if the root came with trailing separators |
| ContentDigest.CurrentDirectoryShowsIff | path-compression/path_compresssion.go:53-61 | For every root that cleans to the current directory, the stream is the one of other clean roots if and only if the directory is empty |
| ContentDigest.DigestOfCurrentDirectory | path-compression/path_compresssion.go:53-61 | For "." each path loses its leading separator and its first dot, wherever that is, which shows if and only if the directory is not empty |
| Filepath.CleanShortens | path-compression/path_compresssion.go:131-131 | Cleaning a path that names something never lengthens it, and keeps its length only if it was clean |
| DigestRoots.KeptIffRootIsClean | path-compression/path_compresssion.go:54-57 | For every root that names something and every path: written as it is below the root if and only if the root was given clean |
| DigestRoots.KeptIffRootIsAbsent | path-compression/path_compresssion.go:54-57 | For roots that clean to "/": a path is kept if and only if the root does not occur in it |
| DigestRoots.FoundAbsoluteRootTells | path-compression/path_compresssion.go:54-57 | An absolute root that is not clean, occurs in a clean path and does not end in `/..` has its letters in other proportions than its clean path |
| DigestRoots.EqualStreamsSameProportions | path-compression/path_compresssion.go:53-61 | If the stream shows nothing of the root, the root occurs in some listed path and has its letters in the proportions of its clean path |
| DigestRoots.RootShowsIff | path-compression/path_compresssion.go:53-61 | For every root that names something, unless it is absolute and ends in `/..`, occurs in a listed path and has those proportions: the stream is the tree's own if and only if the root was given clean or the directory is empty |
| DigestRoots.DotSlashShowsIff | path-compression/path_compresssion.go:53-61 | A leading `./` before a clean relative root shows if and only if the directory is not empty |
| DigestRoots.FileSystemRootShowsIff | path-compression/path_compresssion.go:53-61 | For roots that clean to "/" the stream is the tree's own if and only if the root occurs in no path |
| ContentDigest.StreamDeterminesPathsAndContents | path-compression/path_compresssion.go:53-61 | If only lengths agree, place by place in the order hashed, the streams are equal if and only if all paths and all contents are |
| ContentDigest.StreamDeterminesTree | path-compression/path_compresssion.go:53-61 | At equal lengths the trees are the same if and only if the streams are equal and nothing empty changes between file and directory |
| ContentDigest.StreamDeterminesContents | path-compression/path_compresssion.go:53-61 | With the paths and sizes fixed, the streams agree if and only if all contents do |
| ContentDigest.OneFileChangeShows | path-compression/path_compresssion.go:53-61 | Changing exactly one file's content, to any size, changes the stream |
| ContentDigest.SwappedKindsCollide | path-compression/path_compresssion.go:53-58 | Two different trees with one stream: an empty directory and an empty file swapped |
| DigestCollisions.StreamOfFiles | path-compression/path_compresssion.go:53-61 | The stream of a directory of files is each name after a separator and each content, in the order of the names |
| DigestCollisions.PathRunsIntoContent | path-compression/path_compresssion.go:53-58 | For every file: moving the front of its content to the end of its name gives different paths and the same stream |
| DigestCollisions.ExchangedContentsCollide | path-compression/path_compresssion.go:53-58 | For any two names: two files with the same paths exchange different contents and the stream stays |
| FanOut.StepKeepsInvariant | container-engine-lib/lib/operation_parallelizer/operation_parallelizer.go:25-67 | Every step keeps each task in one stage, the worker bound, and the channel holding each reported result once |
| FanOut.SendersNeverBlock | container-engine-lib/lib/operation_parallelizer/operation_parallelizer.go:27-27 | With a channel as large as the number of tasks, a worker about to send can always send |
| FanOut.SomeStepEnabled | container-engine-lib/lib/operation_parallelizer/operation_parallelizer.go:26-40 | No deadlock: until the channel is closed some step can be taken |
| FanOut.StartsIff | container-engine-lib/lib/operation_parallelizer/operation_parallelizer.go:26-37 | A waiting task can start if and only if a worker is free |
| FanOut.WorkersAreUsed | container-engine-lib/lib/operation_parallelizer/operation_parallelizer.go:26-37 | For every number up to the bound there is a run with that many tasks running at once |
| OperationParallelizer.ParallelSetupIs | container-engine-lib/lib/operation_parallelizer/operation_parallelizer.go:26-27 | 25 workers, room for every result, every result reported |
| FanOut.RunKeepsInvariant | container-engine-lib/lib/operation_parallelizer/operation_parallelizer.go:25-67 | The invariant holds after every run, and steps taken plus steps left are at most four a task and one |
| FanOut.EveryScheduleIsSafe | container-engine-lib/lib/operation_parallelizer/operation_parallelizer.go:25-67 | In every interleaving: worker bound, bounded length, no blocked sender, and a run that cannot go on has closed the channel |
| FanOut.ReturnedInRun | container-engine-lib/lib/operation_parallelizer/operation_parallelizer.go:58-67 | A recorded result is one that very task returned in the run |
| FanOut.RunToClose | container-engine-lib/lib/operation_parallelizer/operation_parallelizer.go:35-40 | Under any schedule the channel is closed with every task's own result recorded |
| OperationParallelizer.Drain | container-engine-lib/lib/operation_parallelizer/operation_parallelizer.go:42-53 | The drain loop builds the two maps the specification reads off the channel |
| OperationParallelizer.DrainedMapsAreExpected | container-engine-lib/lib/operation_parallelizer/operation_parallelizer.go:42-53 | If the channel holds each outcome once, in any order, the maps are the ones read off the outcomes alone |
| OperationParallelizer.ExpectedMapsPartition | container-engine-lib/lib/operation_parallelizer/operation_parallelizer.go:42-55 | The maps have disjoint domains that together are all ids, each id with its own result |
| OperationParallelizer.ClosedChannelIsComplete | container-engine-lib/lib/operation_parallelizer/operation_parallelizer.go:39-40 | A closed channel holds every operation's own result exactly once |
| OperationParallelizer.MapsIndependentOfSchedule | container-engine-lib/lib/operation_parallelizer/operation_parallelizer.go:25-56 | For operations with fixed results every complete run ends with the same two maps |
| OperationParallelizer.RunOperationsInParallel | container-engine-lib/lib/operation_parallelizer/operation_parallelizer.go:25-56 | The maps split the operations, each entry is what that operation returned, and fixed operations leave no choice |
| FilesArtifactsExpander.EveryErrorReportedOnce | core/files_artifacts_expander/main.go:98-103 | The errors drained are, with multiplicity, the failing jobs' errors |
| FilesArtifactsExpander.ErrorCount | core/files_artifacts_expander/main.go:98-103 | An error is reported as many times as there are jobs that failed with it |
| FilesArtifactsExpander.ExpanderSetupIs | core/files_artifacts_expander/main.go:89-90 | 4 workers, room for every result, errors alone reported |
| FilesArtifactsExpander.ClosedChannelReports | core/files_artifacts_expander/main.go:95-96 | A closed channel reports exactly the failing jobs, each once, with its own error |
| FilesArtifactsExpander.RunExpansions | core/files_artifacts_expander/main.go:88-127 | One result a job; the errors are the failing jobs' errors; there are none if and only if every job succeeded |
| ContextsConfig.SetCurrentAnswer | contexts-config-store/store/contexts_config_store_impl.go:63-90 | Every stored context can be made current, and nothing else; the contexts stay |
| ContextsConfig.AddAnswer | contexts-config-store/store/contexts_config_store_impl.go:92-125 | A context is added at the end, unless it has the reserved name or, failing that, a stored UUID; the reason of each refusal |
| ContextsConfig.RemoveAnswer | contexts-config-store/store/contexts_config_store_impl.go:127-164 | Every UUID can be removed but the current one and that of a default context; the reason of each refusal |
| ContextsConfig.WithoutKeepsOrder | contexts-config-store/store/contexts_config_store_impl.go:141-153 | What removing leaves is in the order it was in |
| ContextsConfig.ReadAnswers | contexts-config-store/store/contexts_config_store_impl.go:29-61 | Reading answers with all that is stored, or with the first context that has the current UUID, and changes nothing |
| ContextsConfig.WritesIff | contexts-config-store/store/contexts_config_store_impl.go:63-164 | Which operations write the file: the accepted ones that are not reads, a removal only if it removes |
| ContextsConfig.DefaultConfigIs | contexts-config-store/store/persistence/default_contexts_config.go:15-28 | One context, named default, with the new UUID, and current |
| ContextsConfig.PerformKeepsConsistent | contexts-config-store/store/contexts_config_store_impl.go:40-164 | Every operation keeps: distinct UUIDs, an existing current context, one default context with its original UUID; a refusal changes nothing |
| ContextsConfig.EveryRunIsConsistent | contexts-config-store/store/contexts_config_store_impl.go:29-164 | The same over every run from the default configuration, where reading the current context always finds it |
| ContextsConfig.LookupAfterOperation | contexts-config-store/store/contexts_config_store_impl.go:40-164 | On any configuration, an accepted operation changes every later lookup exactly as it should: the context set is current, the one added is found, the one removed is not, all others as before |
| ContextsConfig.RemoveUndoesAdd | contexts-config-store/store/contexts_config_store_impl.go:92-164 | Removing a context just added restores the configuration exactly |
| ContextsConfig.UnwrittenMeansUnchanged | contexts-config-store/store/contexts_config_store_impl.go:155-157 | Operations that do not write the file leave the configuration as it was |
| ContextsConfigStore.FileBackedConfigPersistence.PersistContextsConfigInternal | contexts-config-store/store/persistence/file_backed_config_persistence.go:101-114 | Overwrites the file at the path, or fails and changes nothing |
| ContextsConfigStore.FileBackedConfigPersistence.Initialize | contexts-config-store/store/persistence/file_backed_config_persistence.go:68-99 | Sets the path on first use and creates a default configuration if there is no file; a path that cannot be told or looked at leaves it unset, a failed draw or write leaves it set |
| ContextsConfigStore.FileBackedConfigPersistence.LoadContextsConfig | contexts-config-store/store/persistence/file_backed_config_persistence.go:47-66 | Initialises, then decodes the file; fails on a missing file or one that does not decode |
| ContextsConfigStore.FileBackedConfigPersistence.PersistContextsConfig | contexts-config-store/store/persistence/file_backed_config_persistence.go:40-45 | Initialises, then overwrites the file |
| ContextsConfigStore.InitialisedIff | contexts-config-store/store/persistence/file_backed_config_persistence.go:68-99 | When initialising works, where the path is afterwards, and when a default configuration is written |
| ContextsConfigStore.LoadedIff | contexts-config-store/store/persistence/file_backed_config_persistence.go:47-66 | Loading gives what the file at the path holds, if initialising works and it decodes |
| ContextsConfigStore.LoadAfterPersist | contexts-config-store/store/persistence/file_backed_config_persistence.go:40-66 | Round trip: what was persisted is what is loaded, in any environment, with no other file changed; and exactly when persisting works |
| ContextsConfigStore.ReservedNameNeedsNoStorage | contexts-config-store/store/contexts_config_store_impl.go:96-99 | The reserved name is refused before anything is touched |
| ContextsConfigStore.FirstUseOfStored | contexts-config-store/store/persistence/file_backed_config_persistence.go:84-88 | First use where a configuration is stored uses it and makes no other |
| ContextsConfigStore.UnreadableFails | contexts-config-store/store/persistence/file_backed_config_persistence.go:55-64 | A missing file at a set path, or one that does not decode, fails every operation that loads and changes nothing |
| ContextsConfigStore.UnlocatedFails | contexts-config-store/store/persistence/file_backed_config_persistence.go:74-83 | So does a path that cannot be told, or a failing look for the file |
| ContextsConfigStore.ContextConfigStoreImpl.GetKurtosisContextsConfig | contexts-config-store/store/contexts_config_store_impl.go:29-38 | Answer and new storage are those of the operation on values |
| ContextsConfigStore.ContextConfigStoreImpl.GetCurrentContext | contexts-config-store/store/contexts_config_store_impl.go:40-61 | The same, for the first context with the current UUID |
| ContextsConfigStore.ContextConfigStoreImpl.SetContext | contexts-config-store/store/contexts_config_store_impl.go:63-90 | The same; an unknown UUID is refused |
| ContextsConfigStore.ContextConfigStoreImpl.AddNewContext | contexts-config-store/store/contexts_config_store_impl.go:92-125 | The same; the reserved name is refused before anything is loaded, a known UUID after |
| ContextsConfigStore.ContextConfigStoreImpl.RemoveContext | contexts-config-store/store/contexts_config_store_impl.go:127-164 | The same; the current and the default context are refused, an unknown UUID is accepted without a write |
| ContextsConfigStore.StoreRefinesConfig | contexts-config-store/store/contexts_config_store_impl.go:29-164 | Once a configuration is stored, every operation does to the file what it does on values, touches no other file, and on an unwritable disk fails without a change if and only if it would write |
| ContextsConfigStore.StoreRunRefinesReplay | contexts-config-store/store/contexts_config_store_impl.go:29-164 | Over whole runs on a working disk the file holds what the operations come to |
| ContextsConfigStore.FirstUseCreatesDefault | contexts-config-store/store/persistence/file_backed_config_persistence.go:68-99 | With nothing stored, whatever operation comes first applies to a new default configuration |
| ContextsConfigStore.FailedFirstWriteSticks | contexts-config-store/store/persistence/file_backed_config_persistence.go:90-98 | After a first use whose UUID draw or write failed, every later load fails, after any further operations and however the environment recovers |
| ContextsConfigStore.StoreRecoversIff | contexts-config-store/store/persistence/file_backed_config_persistence.go:68-99 | After a first operation with nothing stored, in any environment, and once everything works, operations succeed if and only if the path could not be told or looked at then, or the UUID could be drawn and the file written |
| StoreSerialisability.StepKeepsInvariant | contexts-config-store/store/contexts_config_store_impl.go:29-164 | Every lock, load, persist and unlock step, and every failing load or write, keeps the lock discipline and agreement with the one-at-a-time run |
| StoreSerialisability.EveryInterleavingIsSerial | contexts-config-store/store/contexts_config_store_impl.go:29-164 | In every interleaving, with reads and writes failing at any time, the answers are those of running the operations one at a time in lock order with the same ones failing, no update is lost, and exactly the failed ones are answered with an error |
| StoreSerialisability.AdmitsIff | contexts-config-store/store/contexts_config_store_impl.go:29-128 | A reader waits for a writer only, a writer for anyone |
| StoreSerialisability.ReadersShare | contexts-config-store/store/contexts_config_store_impl.go:29-42 | Any number of readers do hold the lock at once |
| StoreSerialisability.WithoutFailuresIsReplay | contexts-config-store/store/contexts_config_store_impl.go:29-164 | If nothing fails that one-at-a-time run is the replay on values |
| StoreSerialisability.HolderCanGoOn | contexts-config-store/store/contexts_config_store_impl.go:29-164 | Whoever holds the lock always has a next step that needs nobody else |
| FirstUse.FirstUseIsAsIntendedIff | contexts-config-store/store/persistence/file_backed_config_persistence.go:47-99 | With looks, draws, writes and reads failing at any time: a complete first use leaves one default configuration that every client saw if and only if nothing fails, no client looks for the file between another's failed look and its write, and none reads before the write |
| FirstUse.AloneMakesTheDefault | contexts-config-store/store/persistence/file_backed_config_persistence.go:47-99 | A client on its own, if nothing fails, makes the one default configuration and sees it |
| FirstUse.OthersServedIff | contexts-config-store/store/persistence/file_backed_config_persistence.go:47-99 | As long as no write fails, everyone who did not fail saw the one default if and only if neither of those two things happens |
| FirstUse.HazardFreeServesOthers | contexts-config-store/store/persistence/file_backed_config_persistence.go:47-99 | Whatever fails, if neither happens everyone who did not fail saw the one default |
| FirstUse.FailedWriteStrandsIff | contexts-config-store/store/persistence/file_backed_config_persistence.go:90-98 | A failed draw or write leaves the path set, no file and nobody to create one if and only if there was no file and nobody else inside `init` |
| FirstUse.StrandedForGood | contexts-config-store/store/persistence/file_backed_config_persistence.go:47-99 | From then on no step of any run creates the file, and no client ever sees one |
| FirstUse.ExclusiveInitIsHazardFree | contexts-config-store/store/persistence/file_backed_config_persistence.go:68-99 | If only one client at a time is inside `init`, every interleaving in which no write fails meets the condition |
| FirstUse.TwoReadersRace | contexts-config-store/store/persistence/file_backed_config_persistence.go:47-99 | A run of two readers, as the shared lock allows, in which one default configuration replaces another already handed out |
| ConfigMigration.LatestConfigVersion | cli/cli/kurtosis_config/kurtosis_config_store.go:184-190 | The largest known version |
| ConfigMigration.RunMigrators | cli/cli/kurtosis_config/kurtosis_config_store.go:218-236 | Result and calls of the loop are the composition of migrators from the version on disk to the latest |
| ConfigMigration.OneMigration | cli/cli/kurtosis_config/kurtosis_config_store.go:220-235 | One step: a missing migrator, a failing one, or its result handed to the next version |
| ConfigMigration.CallsUntilObstacle | cli/cli/kurtosis_config/kurtosis_config_store.go:218-236 | How many migrators have been called: all, all before the missing one, or up to and including the failing one |
| ConfigMigration.MigrateConfigOverridesToLatest | cli/cli/kurtosis_config/kurtosis_config_store.go:175-237 | On every input: refused as too new if and only if newer than every known version; an error for the missing or failing deserializer of the version on disk; otherwise the migrations from that version, none of them at the latest |
| ConfigMigration.SplitAnywhere | cli/cli/kurtosis_config/kurtosis_config_store.go:218-236 | Stopping at any version in between and going on from there gives the same result, failures included |
| ConfigMigration.CallsCompose | cli/cli/kurtosis_config/kurtosis_config_store.go:218-236 | The k-th migrator called is that of version onDisk + k, on a value of its own version that the migrations before it produced |
| ConfigMigration.MigrationReachesLatest | cli/cli/kurtosis_config/kurtosis_config_store.go:184-236 | With complete migrators a migration succeeds with a value of the latest version after exactly latest - onDisk calls |
| ConfigMigration.FailureNamesFirstObstacle | cli/cli/kurtosis_config/kurtosis_config_store.go:218-236 | A failure names the first version whose migrator is missing or fails, with all before it done |
| PositionalArgs.ValidateKeys | cli/cli/command_framework/lowlevel/lowlevel_kurtosis_command.go:131-149 | Passes if and only if no key is blank and none is repeated |
| PositionalArgs.ValidateOrder | cli/cli/command_framework/lowlevel/lowlevel_kurtosis_command.go:151-174 | What the empty-string sentinel makes of any keys: an optional or greedy argument before the last is missed exactly when its key is empty |
| PositionalArgs.ValidateDefaults | cli/cli/command_framework/lowlevel/lowlevel_kurtosis_command.go:176-209 | Passes if and only if every optional argument has a default of its own kind |
| PositionalArgs.ValidateArgs | cli/cli/command_framework/lowlevel/lowlevel_kurtosis_command.go:131-209 | Accepts a declaration if and only if it is well formed: all arguments but the last required and non-greedy |
| PositionalArgs.WellDeclaredIff | cli/cli/command_framework/lowlevel/lowlevel_kurtosis_command.go:131-209 | What well formed means, argument by argument: a key with something other than white space, unlike all others; required and non-greedy before the last; an optional one with a default of its kind |
| PositionalArgs.SpacesAre | cli/cli/command_framework/lowlevel/lowlevel_kurtosis_command.go:131-149 | White space, listed |
| PositionalArgs.FittingDefaults | cli/cli/command_framework/lowlevel/lowlevel_kurtosis_command.go:176-209 | Any string fits, the empty one included, and any list for a greedy argument; nothing else does |
| PositionalArgs.RequiredCount | cli/cli/command_framework/lowlevel/lowlevel_kurtosis_command.go:167-169 | The number of required arguments is that of the arguments that are not optional |
| PositionalArgs.CountAcceptedBetween | cli/cli/command_framework/lowlevel/lowlevel_kurtosis_command.go:369-392 | The numbers of tokens accepted, from the last argument alone |
| PositionalArgs.CountAcceptedIffOneAssignment | cli/cli/command_framework/lowlevel/lowlevel_kurtosis_command.go:369-392 | For well-formed declarations a token count is accepted if and only if the tokens can be split over the arguments, and then in one way |
| PositionalArgs.RunsFollowAssignment | cli/cli/command_framework/lowlevel/args/parsed_args.go:66-100 | The tokens handed to each argument are its run in that one way |
| PositionalArgs.ParseArgsForValidation | cli/cli/command_framework/lowlevel/args/parsed_args.go:63-116 | With valid keys and order, whatever the defaults: fails for the first argument that gets no token if there are fewer tokens than required arguments, or for the last if it needs a default that is not of its kind, and in no other case; surplus tokens, which the count check refuses, are ignored |
| PositionalArgs.ParsedMeans | cli/cli/command_framework/lowlevel/args/parsed_args.go:66-100 | What is recorded, argument by argument: the token at its place, all from there on if greedy, or the default; and nothing else |
| LogRetention.SelectExcessLogs | cli/cli/out/file_logger.go:56-68 | The log names among all but the last seven entries |
| LogRetention.SelectedToTheLetter | cli/cli/out/file_logger.go:56-68 | The names selected, in order, with the prefix and the 7 written out |
| LogRetention.RemoveUntilFailure | cli/cli/out/file_logger.go:71-82 | Removes the selected names in order up to the first that cannot be removed |
| LogRetention.RemoveLogFiles | cli/cli/out/file_logger.go:43-94 | The logs directory and the parent's old log after a cleanup; nothing happens if no directory is set |
| LogRetention.RemovedIff | cli/cli/out/file_logger.go:56-82 | In any directory an entry goes if and only if it is a log name with at least seven entries listed after it and no log up to it is stuck |
| LogRetention.RemovedToTheLetter | cli/cli/out/file_logger.go:23-82 | The same with the prefix "kurtosis-cli" and the number 7 written out |
| LogRetention.WithoutKeepsOrder | cli/cli/out/file_logger.go:71-82 | What a removal leaves is in the order it was listed |
| LogRetention.LogsLeft | cli/cli/out/file_logger.go:56-82 | In any directory with nothing stuck the logs left are those among the last seven entries, at most seven, and no other file goes |
| LogRetention.KeepsLastSevenLogsIff | cli/cli/out/file_logger.go:56-82 | In any directory, with any files stuck, a cleanup leaves exactly the last seven logs listed (all, if fewer) if and only if none of the surplus ones is stuck and the one after them is stuck or among the last seven entries |
| LogRetention.KeepsNewestSevenIff | cli/cli/out/file_logger.go:56-82 | With nothing stuck: if and only if the last seven entries are all logs or no log is listed before them |
| LogRetention.LogsOnlyKeepsLastSeven | cli/cli/out/file_logger.go:56-82 | With log files only, a cleanup leaves exactly the last seven listed |
| LogRetention.LogNameOrder | cli/cli/out/file_logger.go:97-99 | At equal timestamp width the order of log names is the order of the timestamps |
| LogRetention.LogNameText | cli/cli/out/file_logger.go:97-99 | A log file's name to the letter |
| LogRetention.RetentionOverRuns | cli/cli/out/file_logger.go:43-99 | In every run of creations and cleanups, with log files only and none stuck, the directory holds the newest logs, at most seven after each cleanup |
| LogRetention.PresentIff | cli/cli/out/file_logger.go:43-99 | Over every run in any directory, with any names appearing and any files stuck at each cleanup: an entry is there if and only if since it last appeared no cleanup found it a log with seven entries listed after it and no stuck log up to it |

## Left out

- The transport: gRPC streams are sequences of messages followed by EOF or an error; flow control, cancellation and message size limits are not modelled.
- PipeReader: the goroutine and the pipe's blocking hand-over are not steps of the model, nor is a consumer that closes the pipe early (the code does not check its writes); what the consumer gets in all, and how it ends, is stated.
- The Web and TypeScript variants of the file streaming protocol, and resuming a broken transfer (the code has none).
- SHA-1, MD5, hex, JSON and YAML themselves, and the size-limit, archive and temporary-file part of the path compression.
- GetFreeIpAddrFromSubnet: its contract covers every input on which the loop ends at all; the others are exactly those DivergesIff names. Inputs shorter than four bytes, on which Go panics, and non-contiguous masks in the range lemmas are excluded; IPv6 is not supported by the code either.
- ListFilesInPathInternal: symbolic links, permissions, unreadable directories, and a tree that changes during the walk; paths resolve through a map that agrees with the tree at every path the walk builds.
- DigestIsRootIndependent: stated for clean roots other than "/" and ".", because it fails for the other spellings just as the lemmas of DigestRoots say. "/" is trimmed to the empty string, which cannot be listed.
- ParseArgsForValidation: on declarations whose keys or order are not valid, which are refused before anything is parsed, nothing is stated.
- RootShowsIff: for an absolute root that ends in `/..`, occurs in a listed path and has its letters in the proportions of its clean path (such as `/x./xx/..` for `/x.`), only KeptIffRootIsClean, path by path, is stated: whether contents can make up for the paths is left open.
- The worker pool's internals: only its bound, its never-blocking submission and StopWait's waiting are modelled, so the two worker limits are a parameter.
- RunExpansions: downloading and unpacking an artifact is a job result; error texts and their numbering are left out.
- EveryInterleavingIsSerial: a write that fails leaves the file as it was, and the persistence's own inner lock is redundant under the store's lock and left out.
- FirstUseIsAsIntendedIff: its clients are readers, the only ones that can be in first use together; an operation that writes holds the store's lock alone, so first use by one is the sequential FirstUseCreatesDefault and StoreRecoversIff.
- The bodies of the per-version migrators and deserializers.
- Flags, usage text, completion, and the lenient parsing used for completion.
- RemoveLogFiles: a directory listing that fails half-way.
- RetentionOverRuns: log files only, and none stuck; PresentIff has the runs with other files and stuck ones.
- Everything that forwards calls between engine, containers, CLI and UI.
