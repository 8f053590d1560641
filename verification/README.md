# Verification of oxware's data formats and protocols

A Dafny model of the self-contained algorithms in oxware, an injector and client module for
GoldSrc games, with proofs of what they promise. `dafny verify dfyconfig.toml` checks all of it.

| modules | what they model |
|---|---|
| `ByteBits`, `BlobCodec`, `Splices`, `LittleEndian`, `BlobFile` | unpacking Valve's encrypted "blob" DLLs: an in-place stream decoder whose key follows the plaintext, and the masked header |
| `Alignment`, `PeLayout`, `AddressLookup`, `Imports` | rebuilding a PE file from a blob: section table, section data, the two address lookups, the import walk |
| `ImageMapping`, `Words`, `Relocation`, `RelocationTable` | laying a PE file out as an image, and applying its base relocations in place |
| `Ticks`, `EngineParking`, `Heartbeat` | two protocols between threads or processes, as atomic steps in any order |
| `Strings`, `CommandLine` | the console's command language |
| `BindFlags`, `KeyNames`, `Binds`, `IntegerVariable`, `Colors` | state that is saved as text and loaded again |
| `BuildSelection` | choosing a supported engine build in place of an unsupported one |

Code that works step by step is a method or a class whose methods are proved against a
function of the inputs or of the old state; the theorems are about that function. Machine
integers are subsets of the integers with wrap-around written out, except in the decoder and
the blob header, which use bit vectors because they are combined bit by bit; hence the words of
`LittleEndian` beside those of `Words`.

Main results, with the promise first and what was found false of the code after it:

* **Reading through the rebuilt file.** For every address backed by data, the blob and the
  rebuilt PE file hold the same byte (`RebuiltFileReadsAsBlob`), and so does the mapped image unless
  a later section is copied over the address (`MappedImageReadsAsBlob`); that exception is exact
  (`MappedFromLookupExactlyWhen`) and occurs (`LaterSectionCanHide`). The two lookups do *not* agree
  in general: an empty section at the image base makes the PE lookup's inclusive upper bound wrap, so
  that it claims every address (`LookupsCanDisagree`). `LookupsAgree` says exactly when they pick the
  same section, `LayoutAgreesExactlyWhen` exactly when the table says where the writer put the data.
* **The decoder** is a bijection, decodes prefixes to prefixes, and is self-synchronising bit by bit:
  the low n bits of a decoded byte come from the low bits of the last n + 1 cipher bytes. So a damaged
  byte damages itself and the next eight at most, and eight is attained. Unpacking as a whole is the
  exact inverse of an independently written packer.
* **Imports.** The walk finds a list exactly if it lies in the blob with its terminators, and a list
  inside one section is the list that the rebuilt file shows a loader, import by import
  (`RebuiltFileHasImports`, `RebuiltFileHasImport`).
* **Relocation is an action.** Each word moves up by its share of the amount
  (`EachWordMoves`, `ImageWordsMove`). Relocating by `d` and then `e` is relocating by `d + e`, and by the
  opposite undoes it. This fails for entries of type HIGH when the low words of `d` and `e` carry;
  `ComposesExactlyWhen` and `RestoresExactlyWhen` are the exact conditions. The walk reads the table
  while it patches the image, and is proved in that form for every table whose walk stays in the
  image (`WalkFollowsPatchedSize` shows one that changes its own course); over a table that no entry touches it applies the entries in order (`WalkAppliesEntries`).
* **Parking** the engine thread is safe in every interleaving in which no wait has timed out.
  `SafeExactlyWhenTrusted` says of every run that has come to rest exactly whether all continuations
  without a further timeout are safe, and `TimeoutBreaksParking` that, if
  waits may time out, none has only safe continuations. A put can always succeed once the engine
  has let go, and a resume lets it go (`PutParks`, `ResumeReleases`).
* **Heartbeat.** Field-wise writes keep both codes and the counter exact in every interleaving,
  and what a listening hears is what the client had last written when it looked.
  The client gives the injector up only after unchanged samples and more than five seconds, but can,
  interrupted between sample and clock, give up an injector that has just beaten (`FalseAlarm`,
  `FalseAlarmExactlyWhen`).
* **Commands.** Splitting is exact: the pieces are the only well-split pieces that join to the
  input. Tokenizing is as intended exactly if a command leaves no quote open and does not end with a
  space (`TokensAreWords`), and `TokensOfAnyText` says what becomes of the intended words otherwise;
  three lemmas show the three ways. Written commands execute as written.
* **Binds.** What comes back under a key after saving and reloading is the bind of the last key to
  write the member that is loaded last for it (`DecidedBindComesBack`), so a bind survives exactly if
  that key has the same bind, and, where no other key claims it, exactly if the key's name maps back.
  All binds survive exactly if all names map back: no accident can restore the table otherwise. The
  program's own table has one name for two keys: a bind of the left Windows key comes back on the
  right one (`LeftKeyComesBackRight`), and in the other order mapping back would not be enough
  (`MappingBackIsNotEnough`).
* **Flags** parse to what their fields spell, except that a trailing comma loses the last field.
* **Integer variables** keep text and value in agreement in every run, and stay in bounds exactly
  if the bounds are ordered and the default lies within them or differs from what the memory held
  (`DefaultEscapesBounds` shows one that escapes).
* **Build selection** ends, with the best replacement, exactly for builds 1633 to 8684; for any
  other build the recursion does not end, because the scans return their own start values.

Where the code and its comments differ the code is followed: every import entry carries the
address of its descriptor's first thunk, not its own.

## Model

| member | source | states |
|---|---|---|
| BlobCodec.DecodePrefix | src/gsdecrypt/blob_algorithm.cpp:146-155 | decoding a prefix gives that prefix of the decoding: later bytes never matter |
| BlobCodec.KeyIsPlainKey | src/gsdecrypt/blob_algorithm.cpp:148-155 | the evolving key is the one computed from the number and the sum of the plaintext bytes so far |
| BlobCodec.KeyInClosedForm | src/gsdecrypt/blob_algorithm.cpp:148-155 | that key is the first key 0x57 for each byte so far plus the sum of those bytes, modulo 2^8 |
| BlobCodec.DecodedByte | src/gsdecrypt/blob_algorithm.cpp:151-155 | the byte at a position is the cipher byte XOR 0x57 times the number of bytes before it plus one, plus the plaintext before it |
| BlobCodec.EncodeDecode | src/gsdecrypt/blob_algorithm.cpp:146-155 | an encoder that only knows the plaintext key undoes the decoder |
| BlobCodec.DecodeEncode | src/gsdecrypt/blob_algorithm.cpp:146-155 | the decoder undoes that encoder; with EncodeDecode, decoding is a bijection |
| ByteBits.AgreeStep | src/gsdecrypt/blob_algorithm.cpp:153-154 | the low n bits of the next key depend on the low n bits of the cipher byte and the low n - 1 bits of the key alone |
| BlobCodec.LowBitsSynchronise | src/gsdecrypt/blob_algorithm.cpp:151-155 | the low n bits of a decoded byte are a function of the low n bits of its cipher byte and of the n bytes before it, of which the j-th counts with its low j bits |
| BlobCodec.KeysSynchronise | src/gsdecrypt/blob_algorithm.cpp:151-155 | after eight common cipher bytes any two keys are equal |
| BlobCodec.SelfSynchronising | src/gsdecrypt/blob_algorithm.cpp:151-155 | a decoded byte depends on the last nine cipher bytes only, whatever key and text went before |
| BlobCodec.ErrorWindow | src/gsdecrypt/blob_algorithm.cpp:151-155 | changing one cipher byte changes at most that position and the next eight |
| BlobCodec.ErrorWindowIsTight | src/gsdecrypt/blob_algorithm.cpp:148-155 | from the program's own first key a change does reach the eighth byte after it, so the window cannot be shortened |
| BlobFile.XorBuffer | src/gsdecrypt/blob_algorithm.cpp:146-158 | the in-place loop leaves the info header alone and turns the rest into its decoding |
| BlobFile.DecryptHeader | src/gsdecrypt/blob_algorithm.cpp:189-196 | exactly the four masked fields change, each to its unmasked value |
| BlobFile.ValidBlobDataHeader | src/gsdecrypt/blob_algorithm.cpp:115-144 | accepts exactly the headers whose base, export, import and count fields are not zero |
| BlobFile.IncrementSectionCount | src/gsdecrypt/blob_algorithm.cpp:64-66 | the stored count becomes the number of sections, modulo 2^16, and no other byte changes |
| BlobFile.DecryptFileBuffer | src/gsdecrypt/blob_algorithm.cpp:31-66 | in the order of the code, up to the section count: which error is reported when, and what the buffer holds after success and after each error |
| BlobFile.MaskUnmask | src/gsdecrypt/blob_algorithm.cpp:189-196 | masking, with masks of the packer's own, and unmasking undo each other both ways |
| BlobFile.UnmaskedFields | src/gsdecrypt/blob_algorithm.cpp:189-196 | the four fields, at their offsets and with the masks written out, after unmasking |
| BlobFile.UnpacksExactlyWhen | src/gsdecrypt/blob_algorithm.cpp:31-66 | which files unpack |
| BlobFile.DecodingStartsBehindInfo | src/gsdecrypt/blob_algorithm.cpp:150-151 | the first 68 bytes are never decoded |
| BlobFile.CodecInverse | src/gsdecrypt/blob_algorithm.cpp:146-158 | encoding and decoding a whole file undo each other both ways |
| BlobFile.UnpackIsInverseOfPack | src/gsdecrypt/blob_algorithm.cpp:31-66 | a file unpacks to an image if and only if it is the packing of that image and the image is packable |
| Alignment.AlignAsRoundsUp | src/gsdecrypt/pe_builder.cpp:30 | for a power of two the mask expression rounds up to the next multiple, and is 0 exactly when adding wraps |
| PeLayout.EachSectionHasOneKind | src/gsdecrypt/pe_builder.cpp:33-51 | the first section is code, every other initialised data, none uninitialised |
| PeLayout.FlagsOfSections | src/gsdecrypt/pe_builder.cpp:33-51 | the flag words, written out |
| PeLayout.AlignSize | src/gsdecrypt/pe_builder.cpp:225 | the size rounded up to 4096, or 0 when it wraps |
| PeLayout.AddSection | src/gsdecrypt/pe_builder.cpp:219-246 | one section adds its aligned virtual size to the image and to the total of its kind |
| PeLayout.BuildSectionTable | src/gsdecrypt/pe_builder.cpp:200-277 | each entry has its section's addresses and sizes; the size fields are sums of rounded sizes by position, and the image size is 4096 plus the sum over all sections |
| PeLayout.TotalsAreSums | src/gsdecrypt/pe_builder.cpp:224-246 | the total of code is the first section, rounded up; that of initialised data the sum of all later ones; that of uninitialised data 0 |
| PeLayout.BuiltSizesAreSums | src/gsdecrypt/pe_builder.cpp:224-246 | the size fields of a table that was built, as those sums modulo 2^32, by a sum that does not look at flags |
| PeLayout.WriteSectionData | src/gsdecrypt/blob_algorithm.cpp:160-187 | the output is each section's bytes padded with zeros to the alignment, in order |
| PeLayout.DataThenZeros | src/gsdecrypt/blob_algorithm.cpp:164-186 | what is written for a section is its data and behind it nothing but zeros |
| PeLayout.RawRangesAreContiguous | src/gsdecrypt/pe_builder.cpp:256-274 | raw ranges are aligned, begin behind the headers, are disjoint and leave no gaps |
| PeLayout.DataIsWhereTheTableSays | src/gsdecrypt/blob_algorithm.cpp:164-186 | the table's pointer and size for a section are where the writer put that section's bytes and its padding: mask alignment and modulo padding agree |
| PeLayout.LayoutAgreesExactlyWhen | src/gsdecrypt/pe_builder.cpp:258-272 | the table's pointers and sizes are those of the writer for all sections if and only if no rounded size and no place in the file leaves 32 bits |
| AddressLookup.RvaToOffset | src/gsdecrypt/pe_builder.cpp:92-108 | the offset in the first section that holds the address, or 0 if none does |
| AddressLookup.BlobLookupFinds | src/gsdecrypt/pe_builder.cpp:92-108 | a section that holds the address, with none before it that does, gives its own data offset plus the distance from its start |
| AddressLookup.OffsetRelativeToSection | src/injector/PortableExecutableObject.cpp:104-123 | the offset in the first section of the PE table that holds the address, with the wrapping inclusive bound, or 0 |
| AddressLookup.PeLookupFinds | src/injector/PortableExecutableObject.cpp:104-123 | the same for the PE table, whose upper bound belongs to the section |
| AddressLookup.LookupsAgree | src/injector/PortableExecutableObject.cpp:110-119 | both lookups pick the same section if and only if no empty section at the image base comes before the blob's choice |
| AddressLookup.LookupsCanDisagree | src/injector/PortableExecutableObject.cpp:113 | two sections and an address for which the lookups pick different ones |
| AddressLookup.RebuiltFileReadsAsBlob | src/gsdecrypt/pe_builder.cpp:92-108 | for each backed address the rebuilt file read through one lookup equals the blob read through the other, even when sections overlap |
| Imports.ReadThunks | src/gsdecrypt/pe_builder.cpp:357-397 | one entry for each thunk before the null thunk, in order, and the furthest by-name thunk |
| Imports.ReadDescriptor | src/gsdecrypt/pe_builder.cpp:336-408 | one descriptor's share of the list, the address table, the furthest name and the count |
| Imports.ProcessImports | src/gsdecrypt/pe_builder.cpp:318-425 | the import list, both data directories and the furthest name, as functions of the descriptors found |
| Imports.DescriptorsAreFound | src/gsdecrypt/pe_builder.cpp:334-408 | the walk finds a list of descriptors and thunks if and only if they lie in the file with their null terminators |
| Imports.ImportIsInOrder | src/gsdecrypt/pe_builder.cpp:357-397 | as many imports as thunks, the k-th of a descriptor behind all those of earlier descriptors |
| Imports.AddressTableIsHull | src/gsdecrypt/pe_builder.cpp:347-349 | the address table starts at the least first thunk and ends behind the furthest null thunk, both attained |
| Imports.EveryThunkIsInTheTable | src/gsdecrypt/pe_builder.cpp:399-421 | without wrap-around every thunk and null thunk lies in the address table directory |
| Imports.FurthestIsMaximum | src/gsdecrypt/pe_builder.cpp:351-386 | the furthest name is the name of a descriptor or by-name thunk, and no such name is further |
| Imports.RebuiltFileHasImports | src/gsdecrypt/pe_builder.cpp:318-425 | a list of imports that lies in the data of one section is laid out alike in the rebuilt file: descriptors of 20 bytes and thunks of 4, with their terminators, at the addresses a loader uses |
| Imports.RebuiltFileHasImport | src/gsdecrypt/pe_builder.cpp:357-397 | each import of that list is the one the rebuilt file shows: an ordinal, or a hint and the name up to its zero |
| Imports.ImportInBlob | src/gsdecrypt/pe_builder.cpp:357-397 | an import found in the blob is what stands there, byte by byte |
| ImageMapping.CopyImageData | src/injector/ManualMappedDll.cpp:350-378 | each image byte comes from the last section copied over it, else from the headers, else it is as before |
| ImageMapping.HeadersAreMapped | src/injector/ManualMappedDll.cpp:353 | where no section is copied, an address in the headers holds the byte of the file at that offset |
| ImageMapping.SectionsAreMapped | src/injector/ManualMappedDll.cpp:357-370 | where a section is copied and no later one, an address holds the byte of the file at the same distance from the section's data |
| ImageMapping.MappedImageReadsAsFile | src/injector/ManualMappedDll.cpp:350-378 | at a stored address no later section covers, the image byte is the file byte the lookup finds |
| ImageMapping.MappedFromLookupExactlyWhen | src/injector/ManualMappedDll.cpp:350-378 | for rebuilt tables, a stored address is mapped from where the lookup finds it if and only if no later section is copied over it |
| ImageMapping.LaterSectionCanHide | src/injector/ManualMappedDll.cpp:357-370 | two overlapping sections for which the image shows the second where the lookup finds the first |
| ImageMapping.MappingFrame | src/injector/ManualMappedDll.cpp:350-378 | bytes outside the headers and the copied ranges keep their values |
| ImageMapping.MappedImageReadsAsBlob | src/injector/ManualMappedDll.cpp:350-378 | from the blob to the mapped image: at each backed address that no later section covers, the image holds the blob's byte |
| Relocation.ApplyFrame | src/injector/ManualMappedDll.cpp:412-442 | a range no patch touches keeps its bytes |
| Relocation.PatchesCommute | src/injector/ManualMappedDll.cpp:412-442 | two patches with disjoint targets, by any two amounts, can be applied in either order |
| Relocation.RelocationsCompose | src/injector/ManualMappedDll.cpp:405-443 | relocating by d and then e is relocating by d + e modulo 2^32, without HIGH entries or without a carry |
| Relocation.WordAfter | src/injector/ManualMappedDll.cpp:420-425 | what a patch leaves at its target depends on that patch alone |
| Relocation.EachWordMoves | src/injector/ManualMappedDll.cpp:412-442 | for disjoint entries: a double word of type 3 moves up by the amount modulo 2^32, a word of type 2 by its low half and a word of type 1 by its high half modulo 2^16 |
| Relocation.ComposesExactlyWhen | src/injector/ManualMappedDll.cpp:412-442 | composition holds if and only if there are no HIGH entries or the low words do not carry |
| Relocation.HighEntryLosesCarry | src/injector/ManualMappedDll.cpp:420-425 | a HIGH entry and two amounts for which relocating twice is not relocating by the sum |
| Relocation.RelocatingByZero | src/injector/ManualMappedDll.cpp:405-443 | applying a list of entries with an amount of 0 changes nothing |
| RelocationTable.WalkingByZero | src/injector/ManualMappedDll.cpp:382-388 | the loop with an amount of 0 changes nothing, whatever the table touches, so the early return is what it would have come to |
| Relocation.RelocatingBack | src/injector/ManualMappedDll.cpp:405-443 | relocating by the opposite restores the image |
| Relocation.RestoresExactlyWhen | src/injector/ManualMappedDll.cpp:405-443 | for disjoint entries it does if and only if there are no HIGH entries or the low word of the amount is zero |
| RelocationTable.EntryBits | src/injector/ManualMappedDll.cpp:407-408 | the masks and the shift split an entry into its upper four and lower twelve bits |
| RelocationTable.PatchImage | src/injector/ManualMappedDll.cpp:412-442 | one entry patches its own target in place, by its type, and nothing else |
| RelocationTable.RelocateEntry | src/injector/ManualMappedDll.cpp:407-442 | one entry, read from the image as it is by then, is applied |
| RelocationTable.RelocateBlock | src/injector/ManualMappedDll.cpp:399-443 | all entries of a block are applied in order, each read from the image as it is by then |
| RelocationTable.RelocateImage | src/injector/ManualMappedDll.cpp:380-452 | the walk over the table as it is being patched ends, and leaves what that walk leads to; the table may be patched itself |
| RelocationTable.WalkAppliesEntries | src/injector/ManualMappedDll.cpp:395-447 | over a table no entry touches the walk stays in the image and applies the entries the table holds at the start, in order |
| RelocationTable.ImageWordsMove | src/injector/ManualMappedDll.cpp:380-452 | the same of the walk over the table |
| RelocationTable.WalkFollowsPatchedSize | src/injector/ManualMappedDll.cpp:445-446 | a table whose entry adjusts the size of its own block: the walk goes on by the size that is there after patching |
| RelocationTable.TableSame | src/injector/ManualMappedDll.cpp:397-446 | images that hold the same table bytes are walked alike |
| RelocationTable.RelocatableAgain | src/injector/ManualMappedDll.cpp:395-447 | relocating keeps the table, so that the image can be relocated again with the same entries |
| RelocationTable.ImageRelocationsCompose | src/injector/ManualMappedDll.cpp:380-452 | walking an image twice leads to what walking it once with the sum leads to |
| RelocationTable.ImageRelocatesBack | src/injector/ManualMappedDll.cpp:380-452 | walking it again with the opposite amount restores the image |
| RelocationTable.SerialisedTableWalk | src/injector/ManualMappedDll.cpp:395-447 | the walk over serialised blocks finds exactly their entries, in order, and ends with the table |
| EngineParking.FrameInvariantKept | src/cheat/oxware.cpp:730-766 | in every run the acknowledgement is set exactly while a frame that has waited is under way |
| EngineParking.FrameResult | src/cheat/oxware.cpp:757-765 | a frame returns false if and only if that call has waited |
| EngineParking.TimeoutsAreLate | src/cheat/oxware.cpp:664-681 | a wait that has napped times out if and only if it has lasted more than 20000 ms modulo 2^32, so its call is longer ago than that |
| EngineParking.TrustedKept | src/cheat/oxware.cpp:636-766 | the invariant behind safety is kept by every step that is not a timeout |
| EngineParking.ParkingIsSafe | src/cheat/oxware.cpp:636-687 | while the controller takes the engine to be parked it is in the wait loop; when a resume was acknowledged it has let go |
| EngineParking.RequestAgreesKept | src/cheat/oxware.cpp:636-692 | in every run the request is set from a put on and clear from a resume on |
| EngineParking.SafeExactlyWhenTrusted | src/cheat/oxware.cpp:655-728 | of every run that has come to rest: no continuation without a further timeout parks badly if and only if the engine is held, or has let go and is not about to acknowledge |
| EngineParking.TimeoutBreaksParking | src/cheat/oxware.cpp:677-681 | every run that has come to rest has a continuation, in which waits may time out, after which the engine is taken to be parked while it runs |
| EngineParking.PutWithoutDetour | src/cheat/oxware.cpp:638-642 | asking to park without the detour of the frame function changes nothing |
| EngineParking.PutParks | src/cheat/oxware.cpp:644-686 | from every run that has come to rest with the engine let go, a put can park it without a timeout |
| EngineParking.ResumeReleases | src/cheat/oxware.cpp:689-766 | a parked engine leaves when it is resumed, and the resume ends |
| EngineParking.EngineLeaves | src/cheat/oxware.cpp:689-766 | once the request is clear the engine leaves within five of its own steps, clears its flag, and returns false if it was parked |
| Heartbeat.InjectorEnd.ListenToInjectedDll | src/injector/InjectedDllCommunicationInterface.cpp:42-61 | uninterrupted, a listening hears the client's code and beats; it reports success exactly when both accesses succeed |
| Heartbeat.InjectorEnd.SendHeartbeat | src/injector/InjectedDllCommunicationInterface.cpp:91-106 | the private counter moves on even when writing it fails; the shared one only when it succeeds |
| Heartbeat.InjectorEnd.TellTo | src/injector/InjectedDllCommunicationInterface.cpp:63-77 | only the injector's code changes |
| Heartbeat.ClientEnd.WriteCode | src/cheat/InjectedDllIPCLayerClient.cpp:72-78 | only the client's code changes |
| Heartbeat.ClientEnd.HeartBeating | src/cheat/InjectedDllIPCLayerClient.cpp:87-107 | which of the two stored values change, and when the beat counts as stopped |
| Heartbeat.ClientEnd.DispatchCall | src/cheat/InjectedDllIPCLayerClient.cpp:38-70 | uninterrupted, a dispatch takes the protocol's steps and returns their status |
| Heartbeat.EveryRunAgrees | src/public/injection/InjectedDllIPCInterface.h:87-93 | in every interleaving each code is its writer's last and the counter is the number of successful listenings modulo 2^32 |
| Heartbeat.OnlyListeningBeats | src/injector/InjectedDllCommunicationInterface.cpp:91-106 | the counter moves on by one with a successful listening and with nothing else |
| Heartbeat.EveryClientAgrees | src/cheat/InjectedDllIPCLayerClient.cpp:87-107 | the client's stored counter and time are those of its last changed sample |
| Heartbeat.HeardCodeWasWritten | src/injector/InjectedDllCommunicationInterface.cpp:42-61 | in every interleaving the code that is heard is the last the client had written when the block was read |
| Heartbeat.ListeningHears | src/injector/InjectedDllCommunicationInterface.cpp:54-60 | a listening that writes its counter ends with that code |
| Heartbeat.UnloadingWasTold | src/cheat/InjectedDllIPCLayerClient.cpp:49-67 | a dispatch that does not give up returns to unload if and only if that was the last the injector had told when the client looked |
| Heartbeat.AskingReturns | src/cheat/InjectedDllIPCLayerClient.cpp:49-69 | looking at the injector's code ends the dispatch, with unloading exactly if that was told last |
| Heartbeat.GivesUpExactlyWhen | src/cheat/InjectedDllIPCLayerClient.cpp:91-98 | all samples since the last stored one were unchanged, and the client gives up if and only if that is too long ago modulo 2^32, hence only if it is |
| Heartbeat.UninterruptedDispatch | src/cheat/InjectedDllIPCLayerClient.cpp:38-45 | uninterrupted, it gives up if and only if no beat came, modulo 2^32, since longer than the limit |
| Heartbeat.FalseAlarmExactlyWhen | src/cheat/InjectedDllIPCLayerClient.cpp:91-98 | the client gives up although the counter has moved if and only if the clock says so and, modulo 2^32, a beat came between its sample and the clock reading |
| Heartbeat.FalseAlarm | src/cheat/InjectedDllIPCLayerClient.cpp:91-97 | a run that gives up an injector which beat between the sample and the clock reading |
| CommandLine.CommandInterpreter.TokenizeCommand | src/util/VariableManager.cpp:540-582 | the current tokens become the words of the command |
| CommandLine.CommandInterpreter.ExecuteInternal | src/util/VariableManager.cpp:391-406 | what one command passes on |
| CommandLine.CommandInterpreter.ExecuteCommand | src/util/VariableManager.cpp:317-365 | what a sequence of commands passes on, in order |
| CommandLine.SplittingIsExact | src/util/VariableManager.cpp:324-364 | a list is the list of pieces of a text if and only if it is well split and joins to the text: nothing is lost, and every piece but the last is balanced and has no separator outside quotes |
| CommandLine.TokensOfAnyText | src/util/VariableManager.cpp:546-582 | for every text, in terms of the fields between spaces outside quotes: a final opening quote loses the last word, another open quote its last character, a final space joins the word before it, else the tokens are the fields |
| CommandLine.TokensAreWords | src/util/VariableManager.cpp:546-582 | a nonempty command is tokenized as intended if and only if it leaves no quote open and does not end with a space |
| CommandLine.WrittenWordsTokenize | src/util/VariableManager.cpp:540-582 | words written with or without quotes, empty words and words with spaces or separators included, are read back |
| CommandLine.LineIsDispatched | src/util/VariableManager.cpp:391-406 | a written command passes on its words, or, behind an unquoted hl, its text as written |
| CommandLine.WrittenCommandsExecute | src/util/VariableManager.cpp:317-365 | a written sequence of commands passes on exactly those commands, in order |
| CommandLine.TrailingQuoteLosesWord | src/util/VariableManager.cpp:554-558 | a quote that opens at the end of a command loses the word before it |
| CommandLine.UnclosedQuoteLosesCharacter | src/util/VariableManager.cpp:568-575 | an unclosed quote loses the last character |
| CommandLine.TrailingSpaceJoinsWord | src/util/VariableManager.cpp:568-575 | a trailing space becomes part of the last word |
| BindFlags.ParseFlagsOutOfString | src/util/BindManager.cpp:607-652 | the flags named by the tokens of the text |
| BindFlags.CreateStringOutOfFlags | src/public/interface/IBindManager.h:92-124 | the names of the flags in their order, joined by comma and space, or none |
| BindFlags.ParsedFlags | src/util/BindManager.cpp:607-652 | a flag is set if and only if a field that counts spells it, with any spaces around it, in any order and number; a trailing comma loses the field before it |
| BindFlags.EveryTextHasFields | src/util/BindManager.cpp:611-651 | every text is such a list of fields, so ParsedFlags speaks of every input |
| BindFlags.NamesInOrder | src/public/interface/IBindManager.h:79-124 | the names as they stand in the file |
| BindFlags.PrintedFlagsParse | src/util/BindManager.cpp:654-658 | parsing undoes printing, for every set of flags |
| KeyNames.SameNameSameHash | src/util/UserInput.cpp:31-58 | names the comparison takes as equal have equal hashes, as the table needs |
| KeyNames.HashIsFnv | src/util/UserInput.cpp:31-44 | the hash is 32-bit FNV-1a: its published values for two texts |
| KeyNames.UserInput.constructor | src/util/UserInput.cpp:420-447 | both tables hold what the last usable entries say |
| KeyNames.UserInput.VirtualKeyToString | src/util/UserInput.cpp:216-227 | the key's name, or the empty text |
| KeyNames.UserInput.StringToVirtualKey | src/util/UserInput.cpp:229-240 | the key a name stands for in any spelling, or 0 |
| KeyNames.LastEntryWins | src/util/UserInput.cpp:430-447 | an entry counts for its name, or for its key, when no later usable entry has the same |
| KeyNames.UsableEntriesCount | src/util/UserInput.cpp:430-447 | an entry with a name and a key, entered last, counts for its key and for its name in every spelling |
| KeyNames.UnusableEntriesAreIgnored | src/util/UserInput.cpp:430-447 | an entry without a name or with key 0 changes nothing |
| KeyNames.NamesComeFromEntries | src/util/UserInput.cpp:441-447 | a key's name is that of a usable entry for the key |
| KeyNames.VksComeFromEntries | src/util/UserInput.cpp:430-436 | a known name stands for the key of an entry with that name in some spelling |
| KeyNames.UnknownNamesGiveZero | src/util/UserInput.cpp:229-240 | a name that no usable entry has in any spelling stands for no key |
| KeyNames.ConsistentTableMapsBack | src/util/UserInput.cpp:430-447 | if no name stands for two keys, every key's name maps back to it |
| Binds.BindManager.AddBind | src/util/BindManager.cpp:414-438 | binds a valid, bindable key, replacing its bind; otherwise nothing changes |
| Binds.BindManager.AddBindOnPushAndRelease | src/util/BindManager.cpp:440-464 | the same with two commands |
| Binds.BindManager.AddBindByName | src/util/BindManager.cpp:521-530 | the same by name; an unknown name changes nothing |
| Binds.BindManager.AddBindOnPushAndReleaseByName | src/util/BindManager.cpp:532-541 | the same by name with two commands |
| Binds.BindManager.RemoveBind | src/util/BindManager.cpp:466-519 | that key's bind and no other is gone |
| Binds.BindManager.RemoveAllBinds | src/util/BindManager.cpp:554-567 | no bind is left |
| Binds.BindManager.CreateBindsFromJson | src/util/BindManager.cpp:239-356 | each member in turn binds its key if it can be read, and is skipped otherwise |
| Binds.BindManager.ExportBindsToJson | src/util/BindManager.cpp:358-412 | the members for the named keys in ascending order |
| Binds.WrittenBindReads | src/util/BindManager.cpp:390-406 | the fields written for a bind read back as that bind, even over the fields of another |
| Binds.ReadsExactly | src/util/BindManager.cpp:263-340 | a member reads as a bind if and only if its fields describe it: which fields, which are optional, and how the type is spelt |
| Binds.WrittenFields | src/util/BindManager.cpp:390-406 | the fields that are written, by type; all others are kept |
| Binds.ExportAccounts | src/util/BindManager.cpp:358-412 | members stand in the order of the first key to write them, read as the bind of the last, and every named key has one |
| Binds.DecidedBindComesBack | src/util/BindManager.cpp:239-412 | under a key comes back the bind of the last key to write the member loaded last for it |
| Binds.SomeKeyDecides | src/util/BindManager.cpp:239-412 | as soon as a bound key's name stands for a key, some key decides its bind |
| Binds.LastMemberDecides | src/util/BindManager.cpp:239-356 | for any file loaded over any binds: the last readable member whose name stands for a key gives its bind |
| Binds.OtherKeysAreKept | src/util/BindManager.cpp:239-356 | a key that no readable member's name stands for keeps the bind it had, or none |
| Binds.BindableKeys | src/util/BindManager.cpp:597-605 | a key can be bound if and only if it is 0 to 255 and not 0x1B, 0x2D or 0xC0, and a name stands for it only if it is not 0 either |
| Binds.KeysThatComeBack | src/util/BindManager.cpp:239-412 | a key comes back bound if and only if the name of some bound key stands for it |
| Binds.BindSurvivesExactlyWhen | src/util/BindManager.cpp:239-412 | for each key, whatever becomes of the others: its bind survives if and only if the deciding key has the same bind |
| Binds.UnrivalledBindSurvives | src/util/BindManager.cpp:239-412 | for each key no other bound key's name stands for: its bind survives if and only if its name maps back |
| Binds.NamesakeIsLater | src/util/UserInput.cpp:430-447 | if a key's name stands for another key, that key was entered later in the translation table |
| Binds.SaveAndReload | src/util/BindManager.cpp:239-412 | for every translation table and every valid bind table: saving and reloading restores all binds of the named keys, and no others, if and only if each of these keys' names maps back to it |
| Binds.ConsistentTableKeepsBinds | src/util/BindManager.cpp:239-412 | it always does when no name stands for two keys |
| Binds.LeftKeyComesBackRight | src/util/key_translation.cpp:103-104 | with the program's two entries for one name, a bind of the left key alone comes back on the right key |
| Binds.MappingBackIsNotEnough | src/util/key_translation.cpp:103-104 | with those entries in the other order the left key's name maps back and yet the right key's bind comes back under it |
| IntegerVariable.PrintedIntegerParses | src/public/BaseVariable.h:329-346 | every 32-bit integer's text parses back to it |
| IntegerVariable.TextIsCanonical | src/public/BaseVariable.h:329-346 | the text is a minus for negative numbers alone and the decimal digits with no zero before them |
| IntegerVariable.TextReads | src/public/BaseVariable.h:329-346 | every text as white space, sign, digits and rest: it reads as that number if there are digits and the number fits, and not at all otherwise |
| IntegerVariable.VarInteger.constructor | src/public/BaseVariable.h:258-273 | the first state, which depends on what the memory held |
| IntegerVariable.VarInteger.Set | src/public/BaseVariable.h:275-284 | the new value clamped, with its text; the same value leaves the text alone |
| IntegerVariable.VarInteger.SetFromText | src/public/BaseVariable.h:292-307 | the parsed value clamped, with the given text if it was in range; an unreadable or equal text changes nothing |
| IntegerVariable.VarInteger.ClampValueIfNeeded | src/public/BaseVariable.h:309-326 | a value beyond a bound becomes that bound, text and all |
| IntegerVariable.RunsOfAVariable | src/public/BaseVariable.h:255-347 | in every run the text parses to the value; it is in bounds in every run if and only if the bounds are ordered and the default is in them or differs from what the memory held |
| IntegerVariable.DefaultEscapesBounds | src/public/BaseVariable.h:266-284 | a default that the memory happened to hold stays out of bounds |
| IntegerVariable.SetIsNearest | src/public/BaseVariable.h:275-326 | a value that is set ends as the nearest to the given one that the bounds allow |
| IntegerVariable.SkippingIsUnobservable | src/public/BaseVariable.h:294 | not parsing an equal text makes a difference only to a value out of its bounds |
| IntegerVariable.SavedTextRestores | src/util/VariableManager.cpp:495-533 | a saved text restores value and text, whatever the variable has become since, if and only if the saved value is in bounds or the text is unchanged |
| Colors.NumberSurvives | src/public/color.h:51-109 | every 32-bit number survives being made a colour |
| Colors.ChannelsInOrder | src/public/color.h:51-57 | red is the lowest byte of the number and alpha the highest |
| Colors.FormattedNumberParses | src/public/custom_json_types.h:48-59 | the text of a number parses back to it |
| Colors.TextOfDigits | src/public/custom_json_types.h:48-52 | the text has the hexadecimal digits of the number, the highest first, in capitals |
| Colors.HexTextReadsAs | src/public/custom_json_types.h:54-59 | every text as a first character, hexadecimal digits in either case and a rest: it reads as that number, or not at all if it does not fit 32 bits |
| Colors.SavedColorComesBack | src/public/custom_json_types.h:48-59 | what comes back is within 1/510 of each saturated channel, and saving it again writes the same text |
| Colors.ColorIsExact | src/public/color.h:173-183 | a colour comes back unchanged if and only if each channel is a whole number of 255ths |
| BuildSelection.BytePatternBank.IsBuildSupported | src/util/BytePatternBank.cpp:49-58 | whether the build is one of the supported ones |
| BuildSelection.BytePatternBank.GetClosestBuildNumberSupported | src/util/BytePatternBank.cpp:202-248 | the number the two scans and the comparison come to |
| BuildSelection.BytePatternBank.DecideOnBuildContainer | src/util/BytePatternBank.cpp:166-200 | when it ends, a container is chosen, for the build itself or its replacement, after one recursive call at most |
| BuildSelection.ClosestIsBest | src/util/BytePatternBank.cpp:202-248 | the replacement is the next higher build from 5943 on, and before it the nearest, ties upward, if and only if it is supported at all; otherwise it is 99999 or 0 |
| BuildSelection.ResolvesExactlyWhen | src/util/BytePatternBank.cpp:166-248 | when it is supported, in terms of the builds below and above |
| BuildSelection.RecursionEndsExactlyWhen | src/util/BytePatternBank.cpp:166-200 | the recursion ends, after any number of rounds, if and only if one round ends it |
| BuildSelection.SupportedRange | src/util/BytePatternBank.cpp:101-109 | with the builds of this version, it ends exactly for builds 1633 to 8684 |

## Left out

- Logging, the GUI, files, the registry, processes, threads, hooks and remote memory: calls with no visible semantics. Reading or writing the other process's memory appears in the heartbeat protocol as an access that may fail.
- CEngineSynchronization's methods as methods: their loops end only by the other thread's steps, so they are given as the atomic steps they consist of, each access to a flag being sequentially consistent. The number of log lines is not modelled.
- process_exports and process_resources: a byte scan that mixes file offsets, host pointers and addresses, without a specification.
- Section names, line numbers, the constant header fields and the timestamp of the rebuilt file.
- Imports.ProcessImports: assumes that descriptors, thunks and names end before the file does; the program reads on without a check.
- Imports.RebuiltFileHasImports: only for a list that lies in the data of one section.
- Imports.RebuiltFileHasImport: only for an import whose hint and name lie in the data of one section.
- AddressLookup.BlobLookupFinds: only for tables whose sections do not wrap, as is AddressLookup.PeLookupFinds; the wrapping cases are in LookupsAgree and LookupsCanDisagree.
- Relocation.EachWordMoves: only for entries with disjoint targets, as the general statement is that entries are applied in order.
- RelocationTable.RelocateImage: assumes that no access of the walk leaves the image; the program does not check. Addresses are not wrapped at 32 bits.
- RelocationTable.WalkAppliesEntries: assumes that no entry adjusts bytes of the table, and so do the theorems about two relocations.
- ImageMapping.CopyImageData: assumes that the ranges copied lie in the file and in the image; the program does not check.
- PeLayout.DataIsWhereTheTableSays: only for files whose offsets fit 32 bits, as is PeLayout.RawRangesAreContiguous; LayoutAgreesExactlyWhen says when they do not hold.
- PeLayout.RawRangesAreContiguous: only for files whose offsets fit 32 bits.
- BlobFile.DecryptFileBuffer: building the PE header and filling in the module information, which the section table and import modules cover in part.
- CommandLine.CommandInterpreter.TokenizeCommand: the assertion that a command is not empty, which in a debug build stops the program for input such as `;;`.
- AddressLookup.LookupsAgree: only for sections at or above the image base whose end does not wrap.
- Looking a command or variable up and running it, its usage and cvar output: what reaches that point is modelled as a dispatch.
- CommandLine.WrittenCommandsExecute: words contain no quote, since the language has no way to write one; quotes inside words as they are typed are covered by TokensAreWords.
- Key press callbacks, internal_state and the engine key table. The keys are taken as registered, as they are after initialisation.
- Binds.BindManager.CreateBindsFromJson: the JSON text itself is not modelled; an object is a list of named members, its fields a finite map of the texts in it.
- Binds.SaveAndReload: saving starts from a configuration without binds, loading from an empty table.
- The out-parameter of set_from_string, which a local variable shadows; VarFloat, whose printer ignores its argument; VarString and VarBoolean.
- IntegerVariable.PrintedIntegerParses: std::to_string and std::stoi are modelled by their standard meaning in base 10, not taken from the repository.
- Colors.SavedColorComesBack: channels are reals, so rounding of floats and values that are not numbers are not modelled; the mask and shift of each byte are written as division and remainder.
- CColor as an object: a colour is a value, and set, which assigns its four fields, is the constructor.
- BuildSelection.BytePatternBank.DecideOnBuildContainer: requires that the recursion ends, which RecursionEndsExactlyWhen shows to be exactly the condition under which the program returns; overflow of the difference of two builds is not modelled.
- Heartbeat: the error message field, and the injector's first write of the whole block, which happens before the client runs. A read of the block is one step, although it copies several fields.
- CBaseInjector's lifecycle, which is driven by the operating system.
