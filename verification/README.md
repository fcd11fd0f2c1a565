# FISCO-BCOS framework: a verified model

Six parts of the framework, each as the functions it is meant to compute, the
code that computes them, and theorems about them.

- **State storage** (`StorageLayers`, `StorageRollback`, `StorageHash`,
  `StorageKeys`, `StateStorage`): a chain of caching layers. The view of a key
  is defined by the nearest layer that knows it. Reads import entries into the
  layers above; writes are recorded so that they can be rolled back; the state
  hash is a sum of entry hashes; the keys of a table are gathered over the chain.
- **Contract ABI codec** (`AbiTypes`, `AbiCodec`, `AbiRoundTrip`, `AbiReading`,
  `AbiStandard`, `AbiLimits`, `ContractABICodec`): arrays, vectors, tuples, strings and words to
  any depth, compared with the "Formal Specification of the Encoding" of the
  Solidity Contract ABI Specification.
- **ABI type names and signatures** (`AbiSignature`, `ContractABIType`).
- **SCALE codec** (`Bytes`, `CompactInteger`, `ScaleCodec`, `ScaleFormat`,
  `ScaleRoundTrip`, `ScaleOrder`, `ScaleTyping`, `ScaleCanonical`, `ScaleLimits`,
  `ScaleEncoderStream`, `ScaleDecoderStream`): every type built
  from integers, booleans, compact and 256-bit integers, byte strings, vectors,
  maps, optionals, variants, arrays and tuples.
- **Merkle root and proof** (`Merkle`, `MerkleAmbiguity`, `MerkleProof`).
- **Sealing** (`Sealing`, `SealingManager`): the sealer as a state machine over
  fetches, proposals, window changes and submissions.
- **Block header** (`BlockHeader`, `PBBlockHeader`): lazily encoded hash fields.

Code that updates an object is a class with the object's fields. Its methods are
proved to do what the specification functions say, and the theorems are about
these functions, over every input, every chain of layers or every run. An
exception is the value `None`. A hash function is any function, to 32 bytes
where the code relies on that.

Some results say where the code does less than one might expect, and exactly
when it does what one expects:

- A signed ABI word comes back only in -7*2^252 <= x < 9*2^252, since the decoder
  compares with a threshold that is not 2^255 (`AbiRoundTrip.SignedIff`).
- The ABI encoder treats every tuple as dynamic and counts a tuple's members, not
  their words, as its head. `AbiStandard.ConformsIff` says exactly which values
  are still encoded as the standard says. The comment beside the type traits
  (`libcodec/abi/ContractABICodec.h:162-167`) gives the standard's definition;
  the model follows the code.
- A vector of one-byte fixed byte strings is written with a length for each
  element and copied back without; `ScaleLimits.RoundTripsIff` says exactly which
  types the SCALE round trip holds for.
- A decoded header hashes the bytes it came with. That is the hash of its fields
  exactly if the bytes are canonical SCALE with nothing left over
  (`BlockHeader.DecodedHashIff`).
- Four leaves of 40 bytes are as long as five hashes of 32, so Merkle roots of
  lists of some different lengths do not bind; `MerkleAmbiguity.BindsIff` says
  exactly which.
- A proposal's number can pass the end of the window, exactly if the ledger has
  reached it (`Sealing.NumberInWindowIff`), and an accepted window can leave the
  number to seal outside it (`Sealing.AcceptedWindowIff`).
- Rollback can throw when a recorder missed writes; `StorageRollback.UndoIff` says
  exactly for which stores and change lists.

## Model

| member | source | states |
|---|---|---|
| `StorageLayers.ReadIsView` | libstorage/StateStorage.cpp:105-179 | what a read returns is the view of the key: the nearest layer that knows the key decides, and DELETED or PURGED there hides it |
| `StorageLayers.ViewMeaning` | libstorage/StateStorage.cpp:105-179 | a key has a view exactly if the first layer of the chain that holds the key holds a NORMAL entry for it, and then it is that entry's value |
| `StorageLayers.ReadsKeepView` | libstorage/StateStorage.cpp:161-169 | reading any set of keys, with all the imports this causes, changes no key's view |
| `StorageLayers.ReadsKeepEveryView` | libstorage/StateStorage.cpp:105-258 | the same seen from every layer of a chain of any depth |
| `StorageLayers.ReadsCompose` | libstorage/StateStorage.cpp:181-258 | reading one set of keys and then another leaves every layer's store as reading both at once does |
| `StorageLayers.SinglesAreBatch` | libstorage/StateStorage.cpp:105-258 | single reads of a list of keys, duplicates included, leave the stores of one batch and answer position by position the same |
| `StorageRollback.UndoSet` | libstorage/StateStorage.cpp:449-505 | undoing one recorded write never throws, and gives the earlier store up to clean imports, whatever was imported in between |
| `StorageRollback.UndoConcat` | libstorage/StateStorage.cpp:449-505 | replaying two recorders one after the other is replaying their joined change lists |
| `StorageRollback.PerformAllUndoable` | libstorage/StateStorage.cpp:260-335 | every run of writes, deletes, purges, reads and nested recorder scopes yields a change list that undoes it |
| `StorageRollback.ScopeUndoable` | libstorage/StateStorage.h:128 | an inner recorder that is rolled back and replaced by the outer one leaves the outer one able to undo everything |
| `StorageRollback.RollbackRestores` | libstorage/StateStorage.cpp:449-505 | after every such run rollback does not reach its throw, keeps every original entry, adds clean imports only, and restores the view of every key |
| `StorageRollback.UndoIff` | libstorage/StateStorage.cpp:449-505 | rollback throws exactly if, where the list says a key was new, the changes replayed before do not leave that key present; otherwise every key ends with what the oldest change to it recorded |
| `StorageRollback.UnseenWriteIff` | libstorage/StateStorage.cpp:482-503 | after a write the recorder saw and one it did not see, rollback throws exactly if the first made the key appear and the second purged it |
| `StorageRollback.WriteSeen` | libstorage/StateStorage.cpp:260-335 | a write is seen at its key and nowhere else: a value shows, a deletion hides, a purge uncovers what is below, and a read-only layer refuses |
| `StorageRollback.RunShowsLastWrite` | libstorage/StateStorage.cpp:260-335 | after every run of writes, reads and nested recorder scopes, a key shows the last write to it that was not rolled back, or what it showed before |
| `StorageRollback.ReadReturnsLastWrite` | libstorage/StateStorage.cpp:105-179 | and a read returns that write's value |
| `StorageHash.AnyOrder` | libstorage/StateStorage.cpp:385-447 | every order of traversal gives the same state hash |
| `StorageHash.TakeAny` | libstorage/StateStorage.cpp:385-447 | any entry may be taken out of the hash first |
| `StorageHash.CleanImportsKeepHash` | libstorage/StateStorage.cpp:507-533 | clean imports do not change the state hash |
| `StorageHash.ReadsKeepHash` | libstorage/StateStorage.cpp:105-258 | no read changes the state hash of any layer |
| `StorageHash.RollbackRestoresHash` | libstorage/StateStorage.cpp:449-505 | rollback of any run restores the state hash |
| `StorageHash.HashOfWrite` | libstorage/StateStorage.cpp:391-417 | what an entry adds to the hash of all others, byte by byte: nothing if clean, the last bit if it deletes, else the hash of its value |
| `StorageHash.DeletionChangesHash` | libstorage/StateStorage.cpp:391-417 | recording a deletion of a key changes the state hash, for every hash function |
| `StorageHash.XorAssign` | libutilities/FixedBytes.h:187-194 | the byte loop of operator^= is the bitwise exclusive or |
| `StorageKeys.KeysExact` | libstorage/StateStorage.cpp:23-103 | over a chain of any depth the keys returned are distinct, and exactly those visible once the layers without traversal are taken out |
| `StorageKeys.KeysAreViews` | libstorage/StateStorage.cpp:23-103 | with traversal on in every layer they are exactly the keys of the table that satisfy the condition and have a view |
| `StorageKeys.ListingOrder` | libstorage/StateStorage.cpp:64-98 | keys known below come first, in the order of the listing below; the layer's own new keys follow in ascending order |
| `StorageKeys.StrOrder` | interfaces/storage/Common.h:73-115 | the string order is decided at the first difference, a prefix coming first |
| `StorageKeys.ComparatorMeaning` | interfaces/storage/Common.h:73-115 | what each comparator accepts, in terms of the first difference; EQ, which the switch does not handle, accepts every key |
| `StorageKeys.IsValid` | interfaces/storage/Common.h:73-115 | the loop over the conditions accepts a key exactly if every condition holds in string order |
| `StateStorageObject.StateStorage.ImportExistingEntry` | libstorage/StateStorage.cpp:507-533 | the whole effect of an import: a clean copy, unless the layer is read-only or knows the key |
| `StateStorageObject.StateStorage.GetRow` | libstorage/StateStorage.cpp:105-179 | the object returns the specified read and leaves every object of the chain with the specified store |
| `StateStorageObject.StateStorage.GetRows` | libstorage/StateStorage.cpp:181-258 | the batch answers each position as a single read would, and leaves the stores of those reads |
| `StateStorageObject.StateStorage.SetRow` | libstorage/StateStorage.cpp:260-335 | new store, error code and recorded change, also for deletes, purges and a read-only layer |
| `StateStorageObject.StateStorage.Rollback` | libstorage/StateStorage.cpp:449-505 | the loop undoes the recorder's list newest first; it fails exactly where the specification does |
| `StateStorageObject.StateStorage.GetPrimaryKeys` | libstorage/StateStorage.cpp:23-103 | the recursive key listing with its erasing loop returns the specified list, in the specified order |
| `StateStorageObject.StateStorage.HashSerial` | libstorage/StateStorage.cpp:391-417 | the serial branch computes the state hash |
| `StateStorageObject.StateStorage.HashParallel` | libstorage/StateStorage.cpp:418-444 | the parallel branch computes the same hash for every partition into ranges, taken in any order |
| `StateStorageObject.Recoder.Log` | libstorage/StateStorage.h:118 | the newest change comes first |
| `AbiRoundTrip.Aligned` | libcodec/abi/ContractABICodec.h:471-544 | every serialised value is a multiple of 32 bytes long |
| `AbiRoundTrip.HeadLength` | libcodec/abi/ContractABICodec.h:370-387 | the fixed part is exactly 32 times the summed Offset |
| `AbiRoundTrip.StaticLength` | libcodec/abi/ContractABICodec.h:195-213 | a static value fills exactly the words its Length announces |
| `AbiRoundTrip.Layout` | libcodec/abi/ContractABICodec.h:370-387 | argument i: its bytes stand at its own place in the head, or its offset word stands there and its bytes begin where that says |
| `AbiRoundTrip.DecodeAt` | libcodec/abi/ContractABICodec.h:545-620 | decoding is local: wherever the bytes of a value stand in the data, decoding there gives it back |
| `AbiRoundTrip.SignedIff` | libcodec/abi/ContractABICodec.cpp:135-151 | a signed word survives exactly if -7*2^252 <= x < 9*2^252, for every sign-and-magnitude 256-bit number |
| `AbiRoundTrip.WrappedIff` | libcodec/abi/ContractABICodec.cpp:135-151 | a value of any nesting survives the signed words exactly if all signed words in it do |
| `AbiRoundTrip.RoundTrip` | libcodec/abi/ContractABICodec.h:424-461 | for any nesting in which no tuple mixes a multi-word static array with a dynamic member, decoding succeeds, and returns the arguments exactly if all signed words are in range |
| `AbiReading.WordRead` | libcodec/abi/ContractABICodec.cpp:153-158 | a word is read exactly if its 32 bytes are in the data, and they are its base-256 digits; an offset so large that the bounds test wraps around reads zero |
| `AbiReading.NumberRead` | libcodec/abi/ContractABICodec.cpp:135-166 | the word as a number, as a signed number cut at 9*2^252, and as true exactly if not zero |
| `AbiReading.BytesRead` | libcodec/abi/ContractABICodec.cpp:168-181 | an address is the last 20 bytes of its word, bytes32 all of them |
| `AbiReading.StringRead` | libcodec/abi/ContractABICodec.cpp:183-199 | a string is as many bytes after the length word as it says, modulo 2^64; decoding throws if they are not all there, except that a bounds test that wraps around gives the empty string |
| `AbiReading.HeadInside` | libcodec/abi/ContractABICodec.h:389-408 | no members are decoded whose fixed part reaches past the end of the data, for every nesting of static arrays |
| `AbiReading.ShortCallThrows` | libcodec/abi/ContractABICodec.h:423-437 | so a call with less data than its fixed part throws |
| `AbiLimits.MixedStringIff` | libcodec/abi/ContractABICodec.h:518-543 | a tuple (uint256[2], string) comes back exactly if the string is the word 64 written twice: the head length counts members, not words |
| `AbiLimits.MixedArrayComesBack` | libcodec/abi/ContractABICodec.h:518-543 | (uint256[2], string[1]) comes back although the layout is wrong, so the condition of RoundTrip is not necessary |
| `AbiStandard.LengthDifference` | libcodec/abi/ContractABICodec.h:471-544 | the encoder exceeds the length of the standard's encoding by exactly the offset words it adds for static tuples |
| `AbiStandard.ConformsIff` | libcodec/abi/ContractABICodec.h:471-544 | the standard has an encoding for a value, and the codec writes it, as the "Formal Specification of the Encoding" in the Solidity Contract ABI Specification says, exactly if signed numbers are below 2^255, none of its members, at any depth, is a static tuple or an array of these, and no tuple in it mixes a multi-word static array with a dynamic member |
| `AbiStandard.CallConformsIff` | libcodec/abi/ContractABICodec.h:449-461 | the same exact condition for the argument list of a call |
| `AbiStandard.LeafEqual` | libcodec/abi/ContractABICodec.cpp:76-133 | words, booleans, addresses and strings are always encoded as the standard writes them out |
| `AbiLimits.StaticTupleDiffers` | libcodec/abi/ContractABICodec.h:147-160 | the argument (uint256) takes two words where the standard has one |
| `AbiLimits.MixedDiffers` | libcodec/abi/ContractABICodec.h:518-543 | a tuple of uint256[2] and any dynamic member is never encoded as the standard says |
| `AbiObject.ContractABICodec.SerialiseValue` | libcodec/abi/ContractABICodec.h:471-544 | serialise for every type gives the specified bytes |
| `AbiObject.ContractABICodec.SerialiseItems` | libcodec/abi/ContractABICodec.h:471-515 | the array and vector loops build offsets and contents of the specified body |
| `AbiObject.ContractABICodec.SerialiseMembers` | libcodec/abi/ContractABICodec.h:517-544 | the tuple traversal builds the specified body |
| `AbiObject.ContractABICodec.AbiInAux` | libcodec/abi/ContractABICodec.h:368-387 | the recursion appends the specified head and tail to the fixed and dynamic parts |
| `AbiObject.ContractABICodec.EncodeCall` | libcodec/abi/ContractABICodec.h:449-461 | four bytes of the signature's hash, unless it is empty, then the specified arguments; the fixed part is as long as announced |
| `AbiObject.ContractABICodec.DeserializeWord` | libcodec/abi/ContractABICodec.cpp:153-158 | reads the word at an offset, or throws, as specified |
| `AbiObject.ContractABICodec.DeserializeBlob` | libcodec/abi/ContractABICodec.cpp:183-199 | reads a length-prefixed string, or throws, as specified |
| `AbiObject.ContractABICodec.DeserializeValue` | libcodec/abi/ContractABICodec.h:545-620 | deserialize for every type, with the exceptions |
| `AbiObject.ContractABICodec.DeserializeItems` | libcodec/abi/ContractABICodec.h:545-593 | the loops over array and vector elements follow the offsets as specified |
| `AbiObject.ContractABICodec.DeserializeMembers` | libcodec/abi/ContractABICodec.h:595-620 | the tuple traversal likewise |
| `AbiObject.ContractABICodec.AbiOutAux` | libcodec/abi/ContractABICodec.h:389-408 | the recursion over the arguments, at the running offset |
| `AbiObject.ContractABICodec.DecodeCall` | libcodec/abi/ContractABICodec.h:423-437 | true exactly if no exception is thrown, and then the arguments |
| `AbiSignature.TrimSplit` | libcodec/abi/ContractABIType.cpp:62-66 | trimming takes away spaces at both ends, and leaves none |
| `AbiSignature.KindOfSized` | libcodec/abi/ContractABIType.cpp:68-101 | every sized name of the three families is classified as such, and never as one of the fixed names or of another family |
| `AbiSignature.KindOfFixed` | libcodec/abi/ContractABIType.cpp:68-101 | how the six names without a size are classified |
| `AbiSignature.KindOfOnly` | libcodec/abi/ContractABIType.cpp:68-101 | no other name than these and the sized ones is accepted |
| `AbiSignature.LeadingZeros` | libcodec/abi/ContractABIType.cpp:129-170 | an extent may be written with any number of leading zeros |
| `AbiSignature.TypeWritten` | libcodec/abi/ContractABIType.cpp:111-178 | every spelling of a type, with any spaces and anything but brackets between dimensions, is accepted and read as written |
| `AbiSignature.TypeRead` | libcodec/abi/ContractABIType.cpp:111-178 | only such spellings are accepted, and the result is what they spell |
| `AbiSignature.PrintParse` | libcodec/abi/ContractABIType.cpp:111-178 | printing a name with any extents and parsing recovers name and rank; the extents come back exactly if all are 64-bit numbers, larger ones saturate |
| `AbiSignature.DynamicIff` | libcodec/abi/ContractABIType.cpp:180-199 | a parsed type is dynamic exactly if the codec's type it stands for is |
| `AbiSignature.SignatureFixedPoint` | libcodec/abi/ContractABIType.cpp:226-280 | the normalised signature parses, in a fresh parser, to the same name, signature and parameters |
| `AbiSignature.SignatureDetermines` | libcodec/abi/ContractABIType.cpp:226-280 | so two accepted texts with one normalised signature have one name and one parameter list |
| `AbiParser.AbiInType.Reset` | libcodec/abi/ContractABIType.cpp:111-178 | the object holds exactly what the text spells, or is cleared |
| `AbiParser.AbiInType.ScanExtents` | libcodec/abi/ContractABIType.cpp:129-170 | the bracket loop returns the specified extents, or refuses |
| `AbiParser.AbiInType.Dynamic` | libcodec/abi/ContractABIType.cpp:180-199 | true exactly for string, bytes or a zero extent, which is when the codec's type is dynamic |
| `AbiParser.AbiInType.RemoveExtent` | libcodec/abi/ContractABIType.cpp:202-212 | turns an array type into its element type; false on an elementary type |
| `AbiParser.AbiFunc.Parser` | libcodec/abi/ContractABIType.cpp:226-280 | name and signature change on success only; the parameters accepted before a failure stay, and add to those of earlier calls |
| `AbiParser.AbiFunc.Collect` | libcodec/abi/ContractABIType.cpp:245-262 | the loop over the comma-separated parts appends the accepted types and builds the text |
| `AbiParser.AbiFunc.GetParamsType` | libcodec/abi/ContractABIType.cpp:214-223 | the texts of the parameters, in order |
| `CompactInteger.EncodableIff` | libcodec/scale/ScaleEncoderStream.cpp:56-121 | encoding succeeds exactly for 0 <= v < 2^536 |
| `CompactInteger.RoundTrip` | libcodec/scale/ScaleDecoderStream.cpp:45-114 | decoding an encoding followed by any bytes gives the value and stops at those bytes |
| `CompactInteger.FullDecode` | libcodec/scale/ScaleDecoderStream.cpp:45-114 | the shape of every string the decoder consumes whole, in each of the four modes |
| `CompactInteger.UniqueShortest` | libcodec/scale/ScaleEncoderStream.cpp:26-121 | the encoding is the one shortest string that the decoder consumes whole and maps to the value |
| `CompactInteger.ShortestIff` | libcodec/scale/ScaleDecoderStream.cpp:45-114 | encoding a decoded number again gives the bytes it was read from exactly if they pass a test on mode and top byte |
| `CompactInteger.CountBytes` | libcodec/scale/Common.h:40-58 | the do-while loop counts the bytes of the value |
| `ScaleCodec.S256IdentityIff` | libutilities/Common.h:120-138 | s2u followed by u2s gives a number back exactly if -2^255 <= x < 2^255 |
| `ScaleRoundTrip.EncodesIff` | libcodec/scale/ScaleEncoderStream.h:50-320 | encoding fails only through a compact integer out of range, anywhere in the value |
| `ScaleRoundTrip.RoundTrip` | libcodec/scale/ScaleDecoderStream.h:51-300 | for every type and every recoverable value, decoding the encoding followed by any bytes gives the value and stops at those bytes |
| `ScaleRoundTrip.CopyRoundTrip` | libcodec/scale/ScaleDecoderStream.h:253-258 | a vector of one-byte elements, which is copied back, survives exactly if it is empty or its elements are encoded without a length |
| `ScaleLimits.RoundTripsIff` | libcodec/scale/ScaleDecoderStream.h:230-268 | all values of a type survive exactly if the type has no vector of one-byte fixed byte strings, or of one-member tuples of these, at a place a value can have |
| `ScaleLimits.LostIsLost` | libcodec/scale/ScaleDecoderStream.h:253-258 | every other type has a value that is not read back, whatever follows it |
| `ScaleLimits.LostVectorMadeUpFor` | libcodec/scale/ScaleDecoderStream.h:253-258 | single values of such a type can survive by coincidence, so recoverability is not necessary for one value |
| `ScaleRoundTrip.MapRoundTrip` | libcodec/scale/ScaleDecoderStream.h:277-300 | maps: inserting the pairs in the order in which they were written rebuilds the map |
| `ScaleRoundTrip.PrefixFree` | libcodec/scale/ScaleEncoderStream.h:50-320 | no encoding is a proper prefix of another of the same type, for every type |
| `ScaleRoundTrip.Unique` | libcodec/scale/ScaleEncoderStream.h:50-320 | two encodings of a type followed by any bytes are equal only if values and bytes are |
| `ScaleFormat.FormatWritten` | libcodec/scale/ScaleEncoderStream.h:50-320 | for every type and value within range, the bytes written are the format spelled out in arithmetic: which digit of the number stands in which place, which byte marks an optional, which length precedes what |
| `ScaleFormat.CompactWritten` | libcodec/scale/ScaleEncoderStream.cpp:26-121 | compact integers: two mode bits and 6, 14 or 30 bits of value, or a count and that many bytes, least significant first |
| `ScaleFormat.DecodeExtends` | libcodec/scale/ScaleDecoderStream.h:51-300 | for every type and any bytes, what is read does not depend on the bytes that follow |
| `ScaleFormat.CutShortThrows` | libcodec/scale/ScaleDecoderStream.h:51-300 | an encoding cut short at any place throws |
| `ScaleFormat.FixedFromLonger` | libcodec/scale/ScaleDecoderStream.h:210-222 | a fixed byte string takes the front of a longer one and refuses a shorter one |
| `ScaleFormat.CopiedBooleans` | libcodec/scale/ScaleDecoderStream.h:253-258 | in a vector of booleans every byte but zero is true |
| `ScaleFormat.LengthWraps` | libcodec/scale/ScaleDecoderStream.cpp:138-145 | the length of a string counts modulo 2^64 |
| `ScaleTyping.DecodeTyped` | libcodec/scale/ScaleDecoderStream.h:51-300 | whatever bytes are given, a decoded value belongs to the type asked for, maps included: their keys come out in strict order |
| `ScaleOrder.TotalOrder` | libcodec/scale/ScaleDecoderStream.h:277-300 | the comparison of keys is a strict total order on the values of every type |
| `ScaleOrder.OrderMeaning` | libcodec/scale/ScaleDecoderStream.h:277-300 | which of two keys comes first: the smaller number, false, the first smaller byte, nothing before something, the lower alternative |
| `ScaleOrder.SequenceOrder` | libcodec/scale/ScaleDecoderStream.h:277-300 | and of two sequences, the one with the smaller member at the first difference, or the shorter |
| `ScaleOrder.EmplaceKeeps` | libcodec/scale/ScaleDecoderStream.h:277-300 | emplacing keeps a map in key order and adds the pair exactly if its key is not there |
| `ScaleOrder.FirstWins` | libcodec/scale/ScaleDecoderStream.h:277-300 | of the pairs read, a map holds for every key the first, in key order |
| `ScaleOrder.DecodeEmplacesAll` | libcodec/scale/ScaleDecoderStream.h:277-300 | decoding a map is reading all pairs and emplacing them in turn |
| `ScaleCanonical.CanonicalIff` | libcodec/scale/ScaleDecoderStream.h:51-300 | for every type and any bytes the decoder accepts: the bytes pass the test exactly if encoding the value read gives them back and the value is recoverable. The test: lengths and compact integers in shortest form, fixed byte strings of exact length, copied elements that encode as they stand, map keys in strict order |
| `ScaleCanonical.CopyableIff` | libcodec/scale/ScaleDecoderStream.h:51-300 | for types that survive the round trip the condition on the value drops out |
| `ScaleCanonical.LongFormAccepted` | libcodec/scale/ScaleDecoderStream.cpp:45-114 | other bytes are accepted: zero in the two-byte mode |
| `ScaleDecoder.NegatedComplementValue` | libcodec/scale/FixedWidthIntegerCodec.h:94-129 | the negation of the 64-bit complement, cast back, is the two's complement value for each width |
| `ScaleEncoder.ScaleEncoderStream.EncodeInteger` | libcodec/scale/FixedWidthIntegerCodec.h:42-52 | appends the low bytes, least significant first |
| `ScaleEncoder.ScaleEncoderStream.EncodeCompactInteger` | libcodec/scale/ScaleEncoderStream.cpp:56-121 | appends the specified encoding, or fails leaving the stream as it was |
| `ScaleEncoder.ScaleEncoderStream.EncodeValue` | libcodec/scale/ScaleEncoderStream.h:50-276 | appends the specified encoding of any value |
| `ScaleEncoder.ScaleEncoderStream.EncodeElements` | libcodec/scale/ScaleEncoderStream.h:311-320 | the loop appends the encodings of all elements, in order |
| `ScaleEncoder.ScaleEncoderStream.EncodePairs` | libcodec/scale/ScaleEncoderStream.h:156-160 | the loop appends key and value of every pair, in key order |
| `ScaleEncoder.ScaleEncoderStream.EncodeElementOfTuple` | libcodec/scale/ScaleEncoderStream.h:278-286 | the recursion appends the members from the given index on, in order |
| `ScaleEncoder.ScaleEncoderStream.TryEncodeAsOneOfVariant` | libcodec/scale/ScaleEncoderStream.h:288-301 | index byte and value of the alternative held |
| `ScaleDecoder.ScaleDecoderStream.NextByte` | libcodec/scale/ScaleDecoderStream.h:378-387 | returns the byte under the cursor and moves it, or throws at the end |
| `ScaleDecoder.ScaleDecoderStream.DecodeInteger` | libcodec/scale/FixedWidthIntegerCodec.h:62-129 | the number at the cursor, signed or not; throws exactly if too few bytes are left |
| `ScaleDecoder.ScaleDecoderStream.DecodeCompactInteger` | libcodec/scale/ScaleDecoderStream.cpp:45-114 | the cursor code does what the specification says on the bytes left |
| `ScaleDecoder.ScaleDecoderStream.DecodeWord` | libcodec/scale/ScaleDecoderStream.cpp:152-162 | the big-endian 256-bit word |
| `ScaleDecoder.ScaleDecoderStream.DecodeValue` | libcodec/scale/ScaleDecoderStream.h:51-300 | the cursor code for every type returns the specified value and leaves the specified bytes |
| `ScaleDecoder.ScaleDecoderStream.DecodePairs` | libcodec/scale/ScaleDecoderStream.h:277-300 | the loop reads and emplaces the pairs; a key read twice keeps its first value |
| `ScaleDecoder.ScaleDecoderStream.DecodeElementOfTuple` | libcodec/scale/ScaleDecoderStream.h:401-410 | the recursion reads the members from the given index on, as specified |
| `ScaleDecoder.ScaleDecoderStream.DecodeVariant` | libcodec/scale/ScaleDecoderStream.h:81-98 | index byte and chosen alternative; an index out of range throws |
| `Bytes.ToBigEndian` | libutilities/DataConvertUtility.h:176-186 | fills the array from its end; the value modulo 256 to the length, most significant byte first |
| `Bytes.FromBigEndian` | libutilities/DataConvertUtility.h:192-199 | the value of the bytes, modulo the width of the result |
| `Bytes.BeValueOfBytes` | libutilities/DataConvertUtility.h:176-199 | reading back what was written gives the number |
| `Bytes.BeBytesOfValue` | libutilities/DataConvertUtility.h:176-199 | writing what was read gives the bytes |
| `Bytes.BeDigit` | libutilities/DataConvertUtility.h:176-186 | byte i is the digit of weight 256^(n-1-i) |
| `Bytes.LeDigit` | libcodec/scale/FixedWidthIntegerCodec.h:42-52 | byte i is the digit of weight 256^i |
| `Merkle.ConcatInjective` | libprotocol/ParallelMerkleProof.cpp:53-62 | children of one width are determined by the bytes that are hashed |
| `Merkle.LevelBinding` | libprotocol/ParallelMerkleProof.cpp:44-68 | two lists of one depth and width with one root are equal, or two different strings hashed on the way collide, for any hash function to 32 bytes |
| `Merkle.MixedBinding` | libprotocol/ParallelMerkleProof.cpp:44-68 | lists of different depth with one root give a collision, unless their lengths are ambiguous |
| `Merkle.RootBinding` | interfaces/protocol/Block.h:64-86 | two blocks with one root have the same hashes, or a collision, or one is empty and a string hashed for the other has the zero hash, unless one length is ambiguous for the other |
| `Merkle.LeavesInjective` | interfaces/protocol/Block.h:168-185 | the leaves, index in front, determine the hashes |
| `Merkle.ParentCount` | libprotocol/ParallelMerkleProof.cpp:47 | the next level is the ceiling of a sixteenth: at least one and strictly shorter, so the loop ends |
| `Merkle.LevelShape` | libprotocol/ParallelMerkleProof.cpp:44-68 | parent i is the hash of the nodes from 16*i on, sixteen of them or as many as there are |
| `Merkle.SmallRoots` | libprotocol/ParallelMerkleProof.cpp:32-69 | the root of no leaf, of one leaf, of at most sixteen, and of more in terms of the next level |
| `Merkle.LeafLayout` | interfaces/protocol/Block.h:168-185 | a leaf is the index in eight bytes, least significant first, and then the hash |
| `Merkle.RootedMeaning` | interfaces/protocol/Block.h:64-86 | transactions come before metadata, and a block with neither has the zero root |
| `MerkleAmbiguity.AmbiguousDoNotBind` | interfaces/protocol/Block.h:168-185 | for every pair of ambiguous lengths below 2^64 there are a hash function and two lists with one root, while no two of all the strings hashed for them collide |
| `MerkleAmbiguity.EmptyDoesNotBind` | interfaces/protocol/Block.h:66-71 | for every length below 2^64 there are a hash function and a list with the root of the empty list, again without any collision |
| `MerkleAmbiguity.BindsIff` | interfaces/protocol/Block.h:64-86 | lists of two lengths below 2^64 are bound by their root, up to two different strings with one hash among all strings hashed, under every hash function, exactly if neither length is ambiguous for the other and not just one of them is zero |
| `MerkleProof.HexInjective` | libprotocol/ParallelMerkleProof.cpp:105-110 | the map's hex keys determine the bytes |
| `MerkleProof.HexDigits` | libprotocol/ParallelMerkleProof.cpp:105-110 | two lower-case digits for each byte, the high one first |
| `MerkleProof.LinkedProves` | libprotocol/ParallelMerkleProof.cpp:71-119 | a map that links every level proves every leaf of the level |
| `MerkleProof.Gather` | libprotocol/ParallelMerkleProof.cpp:54-63 | one group of at most sixteen children, and their concatenation |
| `MerkleProof.CalculateMerkleProofRoot` | libprotocol/ParallelMerkleProof.cpp:32-69 | the level loop returns the root |
| `MerkleProof.ProofMap.LinkLevel` | libprotocol/ParallelMerkleProof.cpp:84-116 | the loop over one level returns the next level, links each parent to its children and removes nothing |
| `MerkleProof.ProofMap.CalculateMerkleProof` | libprotocol/ParallelMerkleProof.cpp:71-119 | for every leaf the map then has a chain of edges from the root of CalculateMerkleProofRoot to the leaf, each parent the hash of a contiguous run of at most sixteen listed children |
| `MerkleProof.EncodeToCalculateRoot` | interfaces/protocol/Block.h:168-185 | the leaves: index and hash |
| `MerkleProof.CalculateTransactionRoot` | interfaces/protocol/Block.h:64-86 | the root over transactions, or over transaction hashes if there are none |
| `Sealing.EveryRun` | libsealer/SealingManager.cpp:26-276 | after every run of the sealer from its initial state, all four invariants below hold |
| `Sealing.StepConserved` | libsealer/SealingManager.cpp:69-182 | each transaction delivered is in exactly one place: a queue, a block, or a list returned to the pool, with multiplicity |
| `Sealing.StepFifo` | libsealer/SealingManager.cpp:152-171 | what left each queue followed by what is in it is what was delivered, in order |
| `Sealing.StepBarrier` | libsealer/SealingManager.cpp:48-67 | after a block with system transactions, every later block is built on a ledger that has reached it and has a larger number |
| `Sealing.StepWindowed` | libsealer/SealingManager.h:74-94 | start <= end; every block is above the ledger; since the last anchoring, numbers climb strictly from the start of the window, also across extensions |
| `Sealing.BlockContents` | libsealer/SealingManager.cpp:152-171 | a block holds min(maxTxsPerBlock, pending) transactions, the fronts of the queues, and others only once no system transaction is left |
| `Sealing.BlockDueIff` | libsealer/SealingManager.cpp:48-67 | the event adds exactly one block if the number is in the window, the ledger has reached the barrier, and a full block or, once time is up, any transaction is pending; otherwise none |
| `Sealing.SealedBlock` | libsealer/SealingManager.cpp:139-182 | number and parent of the block, what stays in the queues, the next number, the barrier, and that nothing else changes |
| `Sealing.NoBlock` | libsealer/SealingManager.cpp:48-67 | without a block nothing changes inside the window, and outside it both queues go back to the pool |
| `Sealing.ResetMeaning` | libsealer/SealingManager.cpp:26-33 | a reset puts the number past the window and returns both queues |
| `Sealing.WindowMeaning` | libsealer/SealingManager.h:74-94 | an empty window is refused, a continuation of one not used up extends it, and any other starts afresh and returns both queues |
| `Sealing.FetchMeaning` | libsealer/SealingManager.cpp:203-276 | when a fetch asks for how many, and when for none |
| `Sealing.AnswerMeaning` | libsealer/SealingManager.cpp:35-46 | an answer goes to the ends of the queues, a failure only ends the fetch |
| `Sealing.SubmitMeaning` | libsealer/Sealer.cpp:114-151 | a block at or below the ledger is discarded and its transactions returned, any other submitted, and no other block changes |
| `Sealing.FetchProvisions` | libsealer/SealingManager.cpp:218-227 | a fetch answered in full leaves exactly full blocks for the rest of the window |
| `Sealing.SealingStaysProvisioned` | libsealer/SealingManager.cpp:139-182 | sealing keeps this, while the ledger is below the number to seal, and the last block of the window empties the queues |
| `Sealing.NumberInWindowIff` | libsealer/SealingManager.cpp:146 | a generated number lies within the window exactly if the ledger is below the window's end |
| `Sealing.NumberPassesWindow` | libsealer/SealingManager.cpp:139-182 | and a run from the initial state, for every window of one block from 2 on and every ledger number, seals a block past the window |
| `Sealing.PlacedIff` | libsealer/SealingManager.h:74-94 | after every run, the number to seal has reached the start of the window exactly if some event re-anchored the window or reset sealing; before that it is -1 |
| `Sealing.AcceptedWindowIff` | libsealer/SealingManager.h:74-94 | after every run and an accepted window request, the number to seal lies in the window exactly if this request or an earlier event placed it |
| `Sealing.FirstWindowIff` | libsealer/SealingManager.h:81-88 | so the first window is missed exactly if it starts at block 1, which passes for a continuation of the initial window |
| `Sealing.WorkIsRun` | libsealer/Sealer.cpp:92-112 | a turn of the worker is three events of a run, and its block is never stale |
| `SealingObject.SealingManager.ClearPendingTxs` | libsealer/SealingManager.cpp:69-110 | both queues are emptied and handed back |
| `SealingObject.SealingManager.ResetSealing` | libsealer/SealingManager.cpp:26-33 | the state afterwards, and the transactions returned |
| `SealingObject.SealingManager.ResetSealingInfo` | libsealer/SealingManager.h:74-94 | a contiguous extension keeps queues and number; any other window re-anchors |
| `SealingObject.SealingManager.ShouldGenerateProposal` | libsealer/SealingManager.cpp:48-67 | the decision, and the clearing that goes with a number outside the window |
| `SealingObject.SealingManager.TakeTransactions` | libsealer/SealingManager.cpp:152-171 | the two loops take the front of each queue, in order |
| `SealingObject.SealingManager.GenerateProposal` | libsealer/SealingManager.cpp:139-182 | the block, the flag and the state afterwards, and when there is no block |
| `SealingObject.SealingManager.ShouldFetchTransaction` | libsealer/SealingManager.cpp:203-216 | the decision to fetch |
| `SealingObject.SealingManager.FetchTransactions` | libsealer/SealingManager.cpp:229-276 | how many are asked for, and the fetching flag |
| `SealingObject.SealingManager.OnFetched` | libsealer/SealingManager.cpp:35-46 | delivered transactions go to the back of the queues |
| `SealingObject.Sealer.SubmitProposal` | libsealer/Sealer.cpp:114-151 | a block at or below the ledger is returned to the pool whole |
| `SealingObject.Sealer.ExecuteWorker` | libsealer/Sealer.cpp:92-112 | the block, the transactions returned, the number asked for and the state afterwards |
| `SealingObject.Sealer.TryPropose` | libsealer/Sealer.cpp:100-106 | a block is generated exactly if one is due, and a generated block is always submitted |
| `BlockHeader.FieldsRoundTrip` | libprotocol/protobuf/PBBlockHeader.cpp:53-65 | decoding the hash fields followed by any bytes gives the fields back |
| `BlockHeader.EncodingNeverEmpty` | libprotocol/protobuf/PBBlockHeader.cpp:53-65 | the hash fields data is never empty, so emptiness can mean "not cached" |
| `BlockHeader.EncodedLayout` | libprotocol/protobuf/PBBlockHeader.cpp:53-65 | the hash fields data is the SCALE format of the eleven members, in the order written out |
| `BlockHeader.DecodedLayout` | libprotocol/protobuf/PBBlockHeader.cpp:34-39 | decoding gives these fields exactly if reading the eleven types in turn gives these members, each by name |
| `BlockHeader.RootSetters` | libprotocol/protobuf/PBBlockHeader.h:84-182 | the setters of roots and extra data set their own member and no other |
| `BlockHeader.NumberSetters` | libprotocol/protobuf/PBBlockHeader.h:84-182 | so do those of the numbers |
| `BlockHeader.ListSetters` | libprotocol/protobuf/PBBlockHeader.h:84-182 | and those of the lists |
| `BlockHeader.ClearMeaning` | libprotocol/protobuf/PBBlockHeader.cpp:98-112 | what clear resets, and that time stamp and weights stay |
| `BlockHeader.ApplyCoherent` | libprotocol/protobuf/PBBlockHeader.h:84-196 | every setter, clear, hash and encode keeps the cache coherent with the fields |
| `BlockHeader.RunHashesCurrentFields` | libprotocol/protobuf/PBBlockHeader.cpp:53-112 | after any run of them from a coherent header, the hash is that of the encoding of the current fields |
| `BlockHeader.RunHashIff` | libprotocol/protobuf/PBBlockHeader.h:84-196 | after any run from any header, under every hash function, the hash is that of the current fields exactly if the cache was absent or right at the start or some call changed a field |
| `BlockHeader.EncodeDecode` | libprotocol/protobuf/PBBlockHeader.cpp:30-96 | decoding an encoded header into one without signatures gives the same fields, signatures, version and hash |
| `BlockHeader.DecodedCoherentIff` | libprotocol/protobuf/PBBlockHeader.cpp:30-51 | a decoded header hashes the bytes received; it is coherent exactly if these are canonical with nothing left over, and the signatures received are all it has |
| `BlockHeader.DecodedHashIff` | libprotocol/protobuf/PBBlockHeader.cpp:30-51 | under every hash function its hash is that of the encoding of its fields exactly if the bytes are canonical with nothing left over |
| `BlockHeader.WellFormedIff` | libprotocol/protobuf/PBBlockHeader.cpp:30-65 | only such bytes are the encoding of the fields read from them |
| `BlockHeader.TrailingByteIsHashed` | libprotocol/protobuf/PBBlockHeader.cpp:30-51 | one byte too many is accepted, gives the same fields, and is hashed |
| `BlockHeader.OverwrittenAll` | libprotocol/protobuf/PBBlockHeader.cpp:34-39 | where the stream throws, the members read before are replaced; all of them exactly if it does not throw |
| `PBHeader.PBBlockHeader.Hash` | libprotocol/protobuf/PBBlockHeader.h:54-58 | for any header: the hash of the cached bytes or of the encoding; of the current fields if the cache was right |
| `PBHeader.PBBlockHeader.EncodeHashFields` | libprotocol/protobuf/PBBlockHeader.cpp:53-65 | for any header: afterwards the cache holds the encoding of the fields exactly if it was absent or right |
| `PBHeader.PBBlockHeader.EncodeSignatureList` | libprotocol/protobuf/PBBlockHeader.cpp:67-88 | the signatures are written once |
| `PBHeader.PBBlockHeader.Encode` | libprotocol/protobuf/PBBlockHeader.cpp:90-96 | returns the specified record |
| `PBHeader.PBBlockHeader.Decode` | libprotocol/protobuf/PBBlockHeader.cpp:30-51 | the state afterwards, and failure exactly where the hash fields do not decode; then the raw header and the members read before are replaced |
| `PBHeader.PBBlockHeader.Clear` | libprotocol/protobuf/PBBlockHeader.cpp:98-112 | the specified reset |
| `PBHeader.PBBlockHeader.SetNumber` | libprotocol/protobuf/PBBlockHeader.h:112-116 | the new value, nothing else, and a coherent cache; every other setter has the same contract |
| `SealingObject.SealingManager.SealBlock` | libsealer/SealingManager.cpp:146-181 | the block takes min(maxTxsPerBlock, pending) transactions, system ones first, in queue order; number, barrier and queues afterwards |
| `ScaleEncoder.ScaleEncoderStream.EncodeBigInteger` | libcodec/scale/ScaleEncoderStream.cpp:84-121 | the multi-byte mode: header and value, or too big |
| `ScaleEncoder.ScaleEncoderStream.EncodeSecondCategory` | libcodec/scale/ScaleEncoderStream.cpp:32-43 | the two-byte mode |
| `ScaleEncoder.ScaleEncoderStream.EncodeWord` | libcodec/scale/ScaleEncoderStream.cpp:123-129 | appends 32 big-endian bytes |
| `ScaleEncoder.ScaleEncoderStream.EncodeBlobValue` | libcodec/scale/ScaleEncoderStream.h:229-233 | length and bytes of a string |
| `ScaleDecoder.ScaleDecoderStream.DecodeBlobValue` | libcodec/scale/ScaleDecoderStream.cpp:138-145 | length and bytes of a string, or an exception |
| `ScaleDecoder.ScaleDecoderStream.DecodeOptional` | libcodec/scale/ScaleDecoderStream.h:166-192 | presence byte and value, with the three-valued optional boolean |
| `ScaleDecoder.ScaleDecoderStream.DecodeElements` | libcodec/scale/ScaleDecoderStream.h:260-266 | the loop reads as many elements as announced, or throws |
| `ScaleDecoder.ScaleDecoderStream.DecodeVector` | libcodec/scale/ScaleDecoderStream.h:230-268 | both branches: elements of one byte are copied, others decoded |
| `ScaleDecoder.ScaleDecoderStream.CopyElements` | libcodec/scale/ScaleDecoderStream.h:253-258 | as many bytes as announced, each converted to an element |
| `PBHeader.PBBlockHeader.DecodeHashFields` | libprotocol/protobuf/PBBlockHeader.cpp:34-39 | the members are decoded in the order in which they are encoded, and those read are replaced |
| `PBHeader.PBBlockHeader.AppendSignatures` | libprotocol/protobuf/PBBlockHeader.cpp:41-50 | the received signatures are appended |
| `StateStorageObject.StateStorage.FindLocal` | libstorage/StateStorage.cpp:187-218 | the first pass: answers of this layer, and keys and positions it cannot answer |
| `StateStorageObject.StateStorage.ImportAll` | libstorage/StateStorage.cpp:235-246 | the second pass: what came from below is imported and put at its positions |
| `StateStorageObject.StateStorage.LocalKeys` | libstorage/StateStorage.cpp:27-42 | the keys of the table in this layer that satisfy the condition, with their status |
| `StateStorageObject.StateStorage.Merge` | libstorage/StateStorage.cpp:69-90 | the erasing loop keeps the keys from below that this layer does not hide, in order, and leaves its own new ones |
| `StateStorageObject.StateStorage.AppendSorted` | libstorage/StateStorage.cpp:92-98 | the remaining live keys follow in key order |
| `MerkleProof.ProofMap.Link` | libprotocol/ParallelMerkleProof.cpp:106-111 | the children are appended to the list of the parent, and each is an edge then |

## Left out

- AbiRoundTrip.RoundTrip: one direction in the shape of the types, because a wrongly laid out tuple can come back by coincidence of its contents (`AbiLimits.MixedArrayComesBack`); exact in the signed words, and the exact condition for the layout itself is `AbiStandard.ConformsIff`. Data of 2^64 bytes and more is not covered.
- StorageKeys.KeysAreViews: for chains with traversal on in every layer; `StorageKeys.KeysExact` says what other chains return.
- Sealing.StepWindowed: does not bound numbers by the window's end, which the code does not keep.
- PBHeader.PBBlockHeader.Decode: the protobuf bytes are a record of three members; serialising and parsing that record are taken as inverse.
- BlockHeader.EncodeDecode: the receiving header has no signatures; decoding a second time appends to them.
- ScaleDecoder.ScaleDecoderStream.DecodeValue: a 256-bit integer or a byte vector cut short is an exception in the model; the code reads on without a check there.
- ScaleDecoder.ScaleDecoderStream.DecodeWord: the same for a word cut short.
- ScaleDecoder.ScaleDecoderStream.DecodeBlobValue: the same for a vector of bytes cut short.
- ScaleFormat.CutShortThrows: the same where the cut falls in a 256-bit integer or in a byte vector.
- ScaleTyping.DecodeTyped: the alternatives of a variant are distinct, as Boost.Variant demands; a string and a vector of bytes are one type here.
- ScaleRoundTrip.RoundTrip: sufficient for one value, not necessary (`ScaleLimits.LostVectorMadeUpFor`); exact for vectors (`ScaleRoundTrip.CopyRoundTrip`) and for types (`ScaleLimits.RoundTripsIff`).
- MerkleAmbiguity.BindsIff: for lengths below 2^64, the range of the index in a leaf; longer lists repeat indices, and very long ones force collisions.
- SealingObject.Sealer.SubmitProposal: filling in the sealer list and handing the block to consensus, which takes place outside the sealing state.
- Interleavings of threads: every storage and sealer operation, and every exclusive or in the hash, is one step.
- The capacity counter of the storage, which imports and rollback do not maintain; table creation and table information; the size regimes of an entry's buffer.
- `std::list`, smart pointers and `compactLen` in the SCALE codec; vectors of elements of size one that no byte converts to (empty tuples, one-byte arrays), for which the decoder does not compile, and `FixedBytes<0>`.
- Running out of memory when a decoded length is large.
- `abiOutByFuncSelector` and `abiOutHex`: printing of decoded values and hex input.
- The destructive move of the caller's list in the Merkle functions, and 32-bit overflow of the level sizes and leaf indices.
- Caches of transactions and receipts, and the receipt root, which repeats the transaction root.
- Hash and signature algorithms.
- Liveness of the sealer, clocks, timers and retries: time is a choice made by the environment.
- Configuration, logging, JSON, gateway, front, RPC, Base64 and AMOP.
