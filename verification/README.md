# Transaction compiler and wire format

A model of the Solana transaction code in `web3`: how instructions become a message, how a transaction is signed
and serialized, and how all of it is read back. `dafny verify dfyconfig.toml` checks the whole project.

Each module follows a source file or a part of one.

| module | models |
|---|---|
| `Basics`, `Base58` | keys, signatures, errors, Go integer widths; the base-58 order of keys |
| `Buffers`, `Wire`, `WireMeaning` | shortvec lengths, byte buffers with short reads, both message formats and the prefix dispatch; the bytes by position, and what is read from any bytes |
| `Messages`, `AccountMetas` | metas and merged flags, `ByPriority`, header counts, key layout |
| `LegacyCompile`, `LegacyMeaning`, `LegacyLayout`, `LegacyReadBack`, `LegacyTransaction` | the legacy `Transaction`: the state changes as functions, what they come to in terms of its fields, what holds of them and of messages read back, and the class that refines them |
| `CompiledKeys`, `MessageCompiler`, `V0Compiler`, `V0Meaning`, `Decompiler`, `CompileDecompile` | the compilers for both formats, table lookups, the decompiler, and what compiling preserves |
| `VersionedTransactions` | the versioned transaction, which also reads what a legacy one writes |
| `BlockhashCache`, `BlockhashCalls`, `BlockhashHistory` | the blockhash and signature cache of a connection, over every run; what each call hands over; when a whole run can repeat itself |
| `EpochSchedules` | the epoch schedule and its bit-smearing power of two |
| `TokenExtensions` | the Token-2022 extension walkers |

How to read it:

- Go map iteration is an arbitrary order. Loops over a map pick any remaining key, and the order (or the log of what
  each table took) is a ghost result, so every contract and lemma holds for all orders. For legacy transactions the
  message turns out not to depend on the order at all, which is why `CompileMessage` is a function.
- A method that changes state is proved equal to a function of the old state; lemmas about those functions carry the
  promises of the source. `Panic` is a run-time fault of the Go code, kept as an outcome instead of excluded.
- What such a function computes is also told without it, field by field or byte by byte, on failure too: `CompiledFields`
  to `PopulatableMeaning` for the legacy transaction, `WireMeaning` for the formats, `LookedUpWhenFound` and
  `DecompiledFields` for the compilers, `SignedSlots`, `NonceCallHandsOver` and its neighbours, `MintLenFits`.
- *Merged flags* of a key are the or of its flags over all instructions; the payer always signs and writes.
  `Normalized` instructions carry the merged flag on every account.
- Where a promise does not hold of the code, a lemma states exactly when it does, and another one gives an input on
  which it fails: `V0PreservesMeaning` needs lookups that resolve to their own key (`Faithful`, a check on the tables
  and merged keys before compiling; `Position256IsLost`, `TwinTableIsLost`); `FlagsRecovered` needs that no writable
  key is promoted past a read-only signer (`PromotionLosesFlags`); `V0FlagsAgree` needs a header and a number of
  loaded writable keys aligned with the lookup counts (`NegativeCountDisagrees`, `OtherSplitDisagrees`);
  `UnplaceableSlots` names the one schedule whose last slots get epoch -6 (`SlotInEpochMinusSix`);
  `PopulateReproduces` needs a message that reads back in priority order (`CrowdedDoesNotReadBack`) and signatures for
  the signers not read back as such (`SigningProgramNeedsSlot`); `NoRunRepeats` needs a server that does not return
  to a blockhash it has left (`AlternatingServerRepeats`).
- The lemmas on the blockhash cache hold whether caching is disabled or not. The source has a field for it
  (web3/connection.go:185) that nothing sets, so every connection caches: `disableCaching` is false.

## Model

| member | source | states |
|---|---|---|
| `CompileDecompile.V0PreservesMeaning` | web3/message_v0.go:71-104 | for every payer, instructions, tables and map order on which the version 0 compiler succeeds, decompiling with the same tables returns the same payer, blockhash, programs, data and accounts in order with merged flags, if and only if every drained key resolves to itself |
| `CompileDecompile.SuppliedKeysPreserveMeaning` | web3/message_v0.go:406-413 | with keys the caller looked up, whatever tables are passed beside them, the same comes back if and only if these are the drained keys, writable and read-only, each in order |
| `CompileDecompile.FaithfulDistinct` | web3/message_compiled_keys.go:126-144 | with distinct table keys, that condition is: no drained key sits past the first 256 entries of its table; tables of at most 256 entries always meet it |
| `CompileDecompile.Position256IsLost` | web3/message_compiled_keys.go:134-137 | index 256 is let through and becomes byte 0: a transaction that compiles in every order but does not come back |
| `CompileDecompile.TwinTableIsLost` | web3/message_v0.go:427-454 | of two tables with one key only the first is searched: a second transaction that compiles and does not come back |
| `CompileDecompile.LegacyPreservesMeaning` | web3/message_legacy.go:213-235 | a compiled legacy message decompiles to the payer, blockhash and instructions with merged flags, whatever tables are passed |
| `CompileDecompile.CompilersAgree` | web3/message.go:103-118 | whenever both compilers succeed, both messages decompile to the same thing exactly when the lookups are faithful |
| `CompileDecompile.LegacySecondPass` | web3/message.go:19-118 | compiling and decompiling in the legacy format what was decompiled changes nothing |
| `CompileDecompile.V0SecondPass` | web3/message.go:19-118 | in version 0 a second pass changes nothing if and only if the lookups of the first one are faithful |
| `CompileDecompile.MergedKeysNormalized` | web3/message_compiled_keys.go:21-58 | merging flags already merged gives the same map, so a second compilation starts from the same keys |
| `CompileDecompile.LegacySurvivesWire` | web3/message_compat.go:79-108 | a compiled legacy message comes back from the wire, and decompiles to the same instructions, exactly when it has under 128 signers and a 32-byte blockhash |
| `CompileDecompile.V0SurvivesWire` | web3/message_compat.go:79-108 | a compiled version 0 message comes back exactly with under 256 signers and a 32-byte blockhash, and then decompiles to the same instructions if its lookups are faithful |
| `CompileDecompile.DrainingConserves` | web3/message_compiled_keys.go:102-144 | static, looked-up writable and looked-up read-only keys list the used keys and the payer once each; signers and programs stay static; each recorded byte names its key in its table unless the key is at position 256 |
| `CompileDecompile.FaithfulIffLog` | web3/message_compiled_keys.go:102-144 | the check on tables and merged keys says the same as resolving every lookup recorded in any run |
| `CompileDecompile.ResolveLog` | web3/message_v0.go:427-454 | all lookups together resolve to the drained keys, writable then read-only, exactly when each one does |
| `CompileDecompile.DecompilesToNormalized` | web3/message.go:51-89 | indexed instructions over keys whose positions tell their flags decompile to the normalized instructions |
| `V0Compiler.Conserved` | web3/message_compiled_keys.go:102-144 | over any list of tables each merged key is left static or recorded in exactly one list, with the flags that list stands for |
| `V0Compiler.FlatLists` | web3/message_v0.go:92 | static keys followed by the looked-up ones list the merged keys once each, in any order of draining |
| `V0Meaning.LookedUpWhenFound` | web3/message_compiled_keys.go:102-144 | a key is looked up only if it is in a table and is no signer, not the payer and no program, among the writable ones exactly if it is written; and such a key in a table stays static only if it is not written and every table holding it has a key that is only read past position 256 |
| `V0Meaning.LayoutErrors` | web3/message_compiled_keys.go:60-89 | over 256 keys, no key that signs and writes, or another one than the payer met first: which error each order of the map gives |
| `V0Compiler.NewMessage0` | web3/message_v0.go:71-104 | what the version 0 compiler returns: lookups matching the log of what each table took, the other keys laid out, indexes that name their keys; and for each course of the drains and order of the layout exactly whether it succeeds, and with which error it fails: a table index, a layout error, over 256 keys left and taken, or else an unknown account key |
| `V0Compiler.CompilesInEveryOrder` | web3/message_v0.go:71-104 | it succeeds in every order if and only if there are at most 256 keys, the payer alone signs and writes, no writable key looked for is past position 256 of its table, and no table has both such a read-only key and another one to lose |
| `V0Compiler.LosesNothing` | web3/message_compiled_keys.go:109-111 | a table can lose no key exactly when none of its read-only keys is past position 256, or all of them are |
| `CompiledKeys.LossHasAnOrder` | web3/message_compiled_keys.go:127-139 | every set of keys counted as a possible loss is deleted in some order of the map |
| `MessageCompiler.NewMessage` | web3/message_legacy.go:213-235 | the legacy compiler, and that it fails only where laying out the keys in the order ranged over fails, with that error |
| `MessageCompiler.CompileInstructions` | web3/message_v0.go:186-217 | over 256 keys is an overflow, a missing key an error; otherwise every byte is the last position of the key it stands for |
| `MessageCompiler.IndexKeys` | web3/message_v0.go:192-195 | the index map knows exactly the keys and gives the last position of each |
| `MessageCompiler.Get` | web3/message_v0.go:171-180 | walking the segments finds the key at that position of all of them end to end |
| `MessageCompiler.ResolveAddressTableLookups` | web3/message_v0.go:427-454 | resolving in one pass equals resolving lookup by lookup in the first table with the key, with the first error |
| `MessageCompiler.ResolveOneMeaning` | web3/message_v0.go:430-452 | one lookup: no table with its key is an error, an index past the entries of the first such table another, and otherwise the entries come out in the order of the indexes |
| `MessageCompiler.ResolveConcat` | web3/message_v0.go:427-454 | lookups resolve one after the other, writable and read-only entries apart, and the first failure is the result |
| `CompiledKeys.CompiledKeys.constructor` | web3/message_compiled_keys.go:21-58 | the map built entry by entry holds exactly the keys used and the payer with or-ed flags |
| `CompiledKeys.MergedKeysMeaning` | web3/message_compiled_keys.go:21-58 | that map agrees with the merged metas of the instructions, and a key is marked invoked exactly if it is a program |
| `CompiledKeys.CompiledKeys.GetMessageComponents` | web3/message_compiled_keys.go:60-100 | on success the layout below, over 256 keys an error, and for each order exactly what that order gives |
| `CompiledKeys.ComponentsLaid` | web3/message_compiled_keys.go:60-100 | for every order, on success: payer first, each key once, writable signers, read-only signers, writable others, read-only others, and header counts that tell every rank |
| `CompiledKeys.SucceedsInEveryOrder` | web3/message_compiled_keys.go:61-89 | every order succeeds if and only if there are at most 256 keys and the payer is the only writable signer |
| `CompiledKeys.CompiledKeys.DrainKeysFoundInLookupTable` | web3/message_compiled_keys.go:126-144 | over all orders: success takes exactly the keys found, listed once with their bytes; failure only if a found key is past 256, with some of the others already deleted |
| `CompiledKeys.CompiledKeys.ExtractTableLookup` | web3/message_compiled_keys.go:102-124 | the first drain's error is returned, the second's is dropped and its deleted keys are lost; a lookup is recorded unless nothing was taken |
| `V0Compiler.LostForever` | web3/message_compiled_keys.go:109-113 | a key deleted by a failed second drain is neither static nor recorded after that table |
| `V0Compiler.StillLost` | web3/message_v0.go:76-86 | nor after any later table |
| `V0Compiler.ExtractNext` | web3/message_v0.go:76-86 | every table of the loop keeps the account of what was taken, left and lost |
| `V0Compiler.KeysAtTheEnd` | web3/message_v0.go:92-96 | the keys at the end cover all instructions exactly when nothing was lost, so a lost key surfaces as an unknown account key |
| `Decompiler.NewTransactionMessageFrom` | web3/message.go:19-97 | the loops compute the decompilation, with the first error in program order |
| `Decompiler.DecompileAccepts` | web3/message.go:19-97 | a message is accepted exactly with a writable signer, room for its counts, keys to read it with, at least one, and all indexes among them; otherwise which error comes first |
| `Decompiler.DecompiledFields` | web3/message.go:38-97 | any accepted message gives its first key as payer, its blockhash, and each instruction with the keys at its indexes, signers and writability told from the header counts and the number of writable keys loaded |
| `Decompiler.AccountKeysMeaning` | web3/message_v0.go:406-425 | keys looked up by the caller take the places after the static ones, writable before read-only, each in order, if as many as the lookups; without them the tables decide, and without tables there must be no lookups |
| `Decompiler.V0FlagsAgree` | web3/message_v0.go:118-140 | for any version 0 message the decompiler accepts, compiled or not, with tables, with keys looked up by the caller or with neither, every signer flag it assigns equals IsAccountSigner, and all its writable flags, lookups included, equal IsAccountWritable if and only if the header and the number of writable keys loaded are aligned with the lookup counts |
| `Decompiler.NonnegativeCountAgrees` | web3/message_v0.go:406-425 | in particular, if the count of read-only unsigned keys is not negative, always with tables, and with keys looked up by the caller exactly if as many of them are writable as the lookups say |
| `Decompiler.NegativeCountDisagrees` | web3/message.go:31-36 | a header with a negative count that passes the decompiler's checks, is not aligned, and gets different flags |
| `Decompiler.OtherSplitDisagrees` | web3/message_v0.go:409 | only the total of keys looked up by the caller is checked: one key loaded as writable instead of read-only is accepted and gets another flag |
| `Decompiler.LegacyFlagsAgree` | web3/message_legacy.go:385-400 | the same agreement for legacy messages, always |
| `Decompiler.GetAccountKeys` | web3/message_v0.go:406-425 | given lookups, given tables, or neither: which keys are used and which mismatch is an error |
| `Decompiler.NumAccountKeysFromLookups` | web3/message_v0.go:110-116 | the running count is the number of writable plus the number of read-only lookups |
| `LegacyCompile.SignedBytesAreSentBytes` | web3/transaction_legacy.go:109-185 | after a successful Sign, compiling again yields the very message signed and clears nothing; each slot holds its signer's answer to exactly those bytes |
| `LegacyCompile.SignSucceeds` | web3/transaction_legacy.go:109-147 | Sign succeeds if and only if the state it opens compiles and every distinct signer answers |
| `LegacyCompile.CompileSucceeds` | web3/transaction_legacy.go:187-239 | compiling succeeds if and only if there is a blockhash, a payer and a use for the key of every signature slot, and a nonce transaction has an instruction |
| `LegacyMeaning.CompileErrors` | web3/transaction_legacy.go:187-239 | which error compiling gives, told from the fields, in the order checked |
| `LegacyMeaning.CompiledFields` | web3/transaction_legacy.go:187-260 | the payer is the fee payer set, or else the key of the first slot; without a nonce the blockhash and instructions are the transaction's own, with one the blockhash is the nonce and the nonce instruction comes first, once; each byte is the position of its key, cut to eight bits |
| `LegacyMeaning.CompiledKeysUsedOnce` | web3/transaction_legacy.go:214-244 | the account keys are the payer and the keys the instructions and the nonce instruction use, each once |
| `LegacyMeaning.CompiledCounts` | web3/transaction_legacy.go:226-244 | the required signers are the payer, the keys asked to sign and those with a slot, before all others; the other two counts are those of the keys on either side that nothing writes |
| `LegacyMeaning.CompiledOrder` | web3/transaction_legacy.go:222-238 | after the payer the signers, and then the others, stand by asked to sign, written, and base-58 string: promoted keys keep their place in that order |
| `LegacyMeaning.CompiledSlots` | web3/transaction_legacy.go:160-185 | compile leaves one slot for each required signer, in order, with the signatures kept if these were the slots, and otherwise zero |
| `LegacyCompile.SignedThenSerialized` | web3/transaction_legacy.go:109-293 | after a successful Sign, Serialize emits exactly the signed message behind the signers' answers if and only if every required key has a signer with a non-zero answer that verifies over it, and it fits a packet |
| `LegacyCompile.CompileStable` | web3/transaction_legacy.go:160-185 | compile leaves a state it compiles to the same message, promoted signers and implicit payer included |
| `LegacyCompile.SerializedIsVerified` | web3/transaction_legacy.go:270-293 | Serialize succeeds if and only if the signature at each required position verifies for the account key there over exactly the message bytes emitted, and the packet is small enough |
| `LegacyMeaning.SerializeErrors` | web3/transaction_legacy.go:270-293 | which error Serialize gives, and over how many bytes a packet is too large |
| `LegacyCompile.SerializedIsSmall` | web3/transaction_legacy.go:354-368 | whatever Serialize accepts has at most 12 signatures and 35 keys (36 if the blockhash is not 32 bytes); every index and count conversion was exact; the version bit is clear |
| `LegacyCompile.CompiledIndexesExact` | web3/transaction_legacy.go:246-258 | up to 256 keys every byte index names the key it was compiled from |
| `LegacyCompile.CompiledHeader` | web3/message_legacy.go:35-49 | header counts of a compiled message fit its keys and the payer is a required signer |
| `LegacyCompile.SignedKeysDistinct` | web3/transaction_legacy.go:165 | no key of a compiled message, signed or not, occurs twice |
| `LegacyCompile.PartialSignFills` | web3/transaction_legacy.go:134-158 | signing fills each signer's own slot and leaves the others |
| `LegacyMeaning.PartialSignStops` | web3/transaction_legacy.go:134-147 | the first signer that does not answer, or has no slot, stops the signing with that error and the slots filled so far |
| `LegacyMeaning.SignStops` | web3/transaction_legacy.go:109-132 | a Sign that fails: slots of the distinct signers emptied and the compile error, or the error of the first signer not answering, with the answers before it |
| `LegacyCompile.DedupeKeys` | web3/transaction_legacy.go:110-121 | deduplication keeps every key once, with the answer of its first signer |
| `LegacyLayout.CanonicalKeys` | web3/transaction_legacy.go:214-244 | the account keys list exactly the keys used and the payer, once each, payer first, for every map order |
| `LegacyLayout.FlagsRecovered` | web3/transaction_legacy.go:226-238 | IsAccountSigner and IsAccountWritable recover the merged flags at every position, promoted signers included, if and only if no writable key is promoted while there is a read-only signer |
| `LegacyLayout.PromotionLosesFlags` | web3/transaction_legacy.go:226-238 | a transaction of one instruction and three signature slots that compiles to a message from which the flags are not recovered |
| `LegacyReadBack.PopulateReproduces` | web3/transaction_legacy.go:295-334 | any compiled message of at most 256 keys, promoted signers included, can be populated with as many signatures as there are keys, or fewer, and compiles again; to the same message if and only if there are no more signatures than required, the signed keys and the others, with the flags read back, are each in priority order, each key told to be writable is an account of some instruction, and each required signer without a signature is read back as a signer; then a full list of signatures is kept and a shorter one leaves every slot empty |
| `LegacyMeaning.PopulatedFields` | web3/transaction_legacy.go:295-334 | what is read from any message: fee payer only if signatures are required, signatures with the first keys, and each instruction with the keys and flags at its indexes |
| `LegacyMeaning.PopulatableMeaning` | web3/transaction_legacy.go:295-334 | it faults exactly on an index past the keys, more signatures than keys, or a required signature without keys |
| `LegacyReadBack.ReadBackCompiles` | web3/transaction_legacy.go:214-260 | for any well-formed message, wherever it came from, and any number of signatures: its header and account keys come back under those same conditions, and only then |
| `LegacyReadBack.CrowdedDoesNotReadBack` | web3/transaction_legacy.go:226-238 | a transaction with a promoted read-only account behind a requested signer of larger key, whose message does not come back |
| `LegacyReadBack.SigningProgramNeedsSlot` | web3/transaction_legacy.go:310-325 | a program promoted to a signer is not read back as one, so without its signature the message does not come back |
| `LegacyLayout.PopulateUndoesCompile` | web3/transaction_legacy.go:295-334 | without promoted signers the message always comes back, its instructions with merged flags, nonce transactions included |
| `LegacyLayout.NormalizedCompiles` | web3/transaction_legacy.go:214-224 | instructions read back with merged flags compile to the same metas |
| `AccountMetas.SortedUnique` | web3/transaction_legacy.go:389-405 | sorting is deterministic: two sorted permutations of metas with distinct keys are equal, whatever order they started in |
| `AccountMetas.BeforeOrder` | web3/transaction_legacy.go:394-405 | Less is a strict order, total between metas of distinct keys, that refines the ranking by signer and writable |
| `AccountMetas.CanonicalWithout` | web3/message_legacy.go:19-28 | moving the payer to the front of the sorted list leaves the sorted list of the others |
| `AccountMetas.GroupedIffRecovers` | web3/message_legacy.go:35-49 | the three counts and a position tell every flag exactly when the list is grouped by rank |
| `AccountMetas.ToHeader` | web3/message_legacy.go:35-49 | the counting loop gives the counts of metas by rank |
| `AccountMetas.ToKeys` | web3/message_legacy.go:51-60 | signers and others, each in the order listed |
| `AccountMetas.ArrangedPermutes` | web3/message_legacy.go:51-60 | splitting and joining again loses and invents no meta |
| `AccountMetas.MoveToFirst` | web3/message_legacy.go:19-28 | the payer as a writable signer, then every meta of another key in order |
| `AccountMetas.WithoutConcat` | web3/message_legacy.go:19-28 | removing the payer goes meta by meta, keeping the others in order |
| `AccountMetas.InsertMetas` | web3/utils/map.go:13-20 | inserting or updating meta by meta builds the merged map |
| `AccountMetas.Values` | web3/utils/map.go:37-42 | ranging over the map lists its values once each, in some order |
| `Base58.EncodeInjective` | web3/message_compiled_keys.go:24 | two keys never share a base-58 string, so maps keyed by strings are maps keyed by keys |
| `Base58.KeyOrder` | web3/transaction_legacy.go:404 | comparing base-58 strings is a strict total order on keys |
| `Base58.LessMeaning` | web3/transaction_legacy.go:404 | the first differing digit decides, or the shorter string if it is the start of the other |
| `LegacyTransaction.UniqueMetas` | web3/transaction_legacy.go:214-224 | culling, sorting and moving the payer gives one list for every map order and every sort |
| `LegacyTransaction.CollectMetas` | web3/message_legacy.go:99-105 | the metas of all instructions, each program last and without flags |
| `LegacyTransaction.CompileAgainst` | web3/transaction_legacy.go:246-258 | when every key used is an account key no index is negative, so the negative-index error never occurs |
| `LegacyTransaction.Transaction.PromoteSigners` | web3/transaction_legacy.go:227-238 | an unknown slot is an error; otherwise exactly the slotted keys are made signers where they stand |
| `LegacyTransaction.Transaction.CompileToMessage` | web3/transaction_legacy.go:187-260 | compileMessage is deterministic: it returns the one message of its state |
| `LegacyTransaction.Transaction.Compile` | web3/transaction_legacy.go:160-185 | slots are kept if they match the signed keys, else emptied; nothing else changes |
| `LegacyTransaction.Transaction.Sign` | web3/transaction_legacy.go:109-132 | the state after signing, successful or stopped at any error |
| `LegacyTransaction.Transaction.AddSignatures` | web3/transaction_legacy.go:134-147 | signers in turn, stopping at the first failure with the slots filled so far |
| `LegacyTransaction.Transaction.AddSignature` | web3/transaction_legacy.go:149-158 | fills the one slot of the key, or reports an unknown signer and changes nothing |
| `LegacyTransaction.Transaction.Serialize` | web3/transaction_legacy.go:270-293 | the bytes or the first applicable error, and the slots left behind |
| `LegacyTransaction.Transaction.SignednessErrors` | web3/transaction_legacy.go:370-387 | the keys with an empty slot and those whose signature does not verify, in order |
| `LegacyTransaction.Transaction.SerializeEnvelope` | web3/transaction_legacy.go:354-368 | count, signatures and message, unless there are 256 signatures or it exceeds a packet |
| `LegacyTransaction.PopulateTransaction` | web3/transaction_legacy.go:295-334 | the transaction read back, and exactly when reading faults |
| `Wire.LegacyRoundTrip` | web3/message_legacy.go:261-377 | deserializing a serialized legacy message returns it if and only if its counts fit bytes, its blockhash is 32 bytes and its program indexes are in range, for any number and size of parts |
| `Wire.V0RoundTrip` | web3/message_v0.go:221-404 | the same for version 0 messages, exactly when counts fit bytes and the blockhash is 32 bytes |
| `Wire.VersionedRoundTrip` | web3/message_compat.go:79-108 | under prefix dispatch a legacy message also needs under 128 signers, and that is all it needs |
| `Wire.ParsedFits` | web3/message_compat.go:88-108 | whatever the bytes, what parses has byte-sized counts, a 32-byte blockhash and program indexes in range |
| `WireMeaning.BodyLayout` | web3/message_legacy.go:261-297 | the bytes both formats share, by position: header, number of keys, keys, blockhash, number of instructions |
| `WireMeaning.PartsLayout` | web3/message_v0.go:242-276 | instructions and lookups, part by part |
| `WireMeaning.MessageLayout` | web3/transaction_versioned.go:92-104 | the version byte, the lookups behind the body, and the signatures in front |
| `WireMeaning.FieldMeaning` | web3/message_legacy.go:300-305 | a field read from any bytes: the fault, the end of input, the bytes there and zeros past them |
| `WireMeaning.LengthMeaning` | web3/utils/shortved.go:7-23 | a length read from any bytes ends at the first byte below 0x80; where its error is dropped it is zero |
| `WireMeaning.DigitsMeaning` | web3/utils/shortved.go:14-19 | each digit of a length weighs 128 times the one before, the first one 1 |
| `WireMeaning.CountedMeaning` | web3/message_legacy.go:343-363 | a length and a field of that size, with their first error |
| `WireMeaning.KeysMeaning` | web3/message_legacy.go:311-320 | keys read from any bytes, the last one possibly short, and when that is the end of input |
| `WireMeaning.BodyMeaning` | web3/message_legacy.go:299-377 | the parts of a body are read in the order written, with the first error; only for the number of instructions is it dropped |
| `WireMeaning.HeaderMeaning` | web3/message_legacy.go:299-310 | the three header bytes of whatever parses, missing ones zero |
| `WireMeaning.InstructionsMeaning` | web3/message_legacy.go:338-364 | instructions read from any bytes, in turn, with their first error |
| `WireMeaning.LookupsMeaning` | web3/message_v0.go:365-396 | lookups likewise |
| `WireMeaning.MessagesMeaning` | web3/message_v0.go:281-404 | what a body makes a message, or a fault, and a version 0 message with its lookups |
| `WireMeaning.PrefixMeaning` | web3/message_v0.go:287-294 | only the byte 0x80 is read as version 0; which error each other first byte gives, and the dispatch |
| `WireMeaning.TrailingIgnored` | web3/message_compat.go:88-108 | bytes after a message make no difference to reading it |
| `Wire.SerializeMessage` | web3/message_legacy.go:261-297 | appending to the buffer writes the legacy format |
| `Wire.SerializeMessageV0` | web3/message_v0.go:221-279 | appending writes the version 0 format |
| `Wire.DeserializeMessage` | web3/message_legacy.go:299-377 | consuming a buffer equals parsing, on any bytes, with short reads and faults |
| `Wire.DeserializeMessageV0` | web3/message_v0.go:281-404 | the same for version 0, with the dropped errors of two lengths |
| `Wire.DeserializeVersioned` | web3/message_compat.go:88-108 | the dispatch on the first byte, a fault on no bytes |
| `Messages.Inflate` | web3/message_legacy.go:237-243 | the cached program ids: exactly the program indexes, each with the key there; and exactly when filling the cache faults |
| `Messages.MergedMetaMeaning` | web3/message_compiled_keys.go:30-55 | merged flags: a key signs, or writes, if it is the payer or some account entry of some instruction asks for it |
| `Buffers.Buffer.Read` | web3/message_legacy.go:300-305 | a read fails only on an empty buffer asked for something; otherwise each byte is the buffer's, or zero past its end |
| `Buffers.ShortVecRoundTrip` | web3/utils/shortved.go:7-38 | decoding returns the encoded length and the bytes used, whatever follows |
| `Buffers.ShortVecSize` | web3/utils/shortved.go:25-38 | the encoding takes k bytes exactly when the length needs k base-128 digits |
| `Buffers.ShortVecPrefixFree` | web3/utils/shortved.go:25-38 | no encoding is a prefix of another |
| `Buffers.DecodeLength` | web3/utils/shortved.go:7-23 | or-ing shifted digits in 64 bits computes the digit sum up to the terminator, on any bytes |
| `Buffers.Buffer.EncodeLength` | web3/utils/shortved.go:25-38 | the loop appends the encoding to the caller's buffer |
| `VersionedTransactions.SerializedIsRecovered` | web3/transaction_versioned.go:106-129 | whatever a legacy transaction serializes to, the versioned Deserialize recovers its signatures in order and its message, if and only if the blockhash is 32 bytes |
| `VersionedTransactions.SignedRoundTrip` | web3/transaction_versioned.go:92-129 | deserializing a serialized versioned transaction returns it exactly when its message comes back from the wire |
| `WireMeaning.SignedMeaning` | web3/transaction_versioned.go:106-129 | a signed transaction read from any bytes: the end of input by the 64-bit length guard, a fault if the signatures still do not fit, and otherwise the signatures there and the message behind them |
| `VersionedTransactions.FillsWhenAllCanSign` | web3/transaction_versioned.go:62-79 | signing succeeds exactly when every signer's key is a required one with a slot and every signer answers |
| `VersionedTransactions.SlotsHoldAnswers` | web3/transaction_versioned.go:62-79 | then the slot of each key holds its last signer's answer to the message bytes and every other slot is untouched |
| `VersionedTransactions.SignedSlots` | web3/transaction_versioned.go:62-79 | versioned Sign succeeds exactly when the header's signers are static keys and each given signer has a key among them, with a slot, and answers; each slot then holds the last answer of its key's signers to exactly the bytes Serialize puts behind the signatures |
| `VersionedTransactions.SignFails` | web3/transaction_versioned.go:62-90 | which error or fault stops it, with the slots filled so far |
| `VersionedTransactions.VersionedTransaction.Sign` | web3/transaction_versioned.go:62-79 | the slots after signing, successful or stopped at any error or fault |
| `VersionedTransactions.VersionedTransaction.AddSignature` | web3/transaction_versioned.go:81-90 | one slot written, a fault for any key without one |
| `VersionedTransactions.VersionedTransaction.Deserialize` | web3/transaction_versioned.go:106-129 | the receiver is written only after everything was read; the length guard multiplies in 64 bits |
| `VersionedTransactions.VersionedTransaction.Serialize` | web3/transaction_versioned.go:92-104 | appends the count, the signatures and the message |
| `VersionedTransactions.SameBytes` | web3/transaction_legacy.go:354-368 | the legacy and the versioned envelope are the same bytes, the program id cache unwritten |
| `VersionedTransactions.NewVersionedTransaction` | web3/transaction_versioned.go:39-56 | as many signatures as required or none, which means empty slots |
| `BlockhashCache.EveryRunIsSound` | web3/connection.go:1940-1975 | after every run of sends and simulations, for any server and clock: no signature is twice in a list kept under the cached blockhash, and each was the fee payer's answer to a message compiled under that blockhash in a call of that kind |
| `BlockhashHistory.NoRunRepeats` | web3/connection.go:2063-2069 | no run of a connection, with caching (as all are made) or without, records a signature twice for one kind of call under one blockhash, lists emptied in between included, if and only if the server never returns to a blockhash it has left |
| `BlockhashHistory.HistoryHasNoRepeats` | web3/connection.go:2063-2069 | the forward half, run by run: the cache keeps what the history needs |
| `BlockhashHistory.ReturningServerRepeats` | web3/connection.go:1940-1975 | with any server that serves a blockhash at reply k after having left it, k + 1 equal sends, with caching or without, whatever their signer answers, record a signature twice under one blockhash |
| `BlockhashHistory.PlainHistory` | web3/connection.go:2043-2077 | n such sends record one entry under each blockhash served so far, in order, equal neighbours merged, and ask at least n times |
| `BlockhashHistory.LoopPolls` | web3/connection.go:1940-1975 | a send whose signature under the cached blockhash is used up comes down to one poll: with an unexpired blockhash the first pass ends in a duplicate and the second fetches |
| `BlockhashHistory.AlternatingServerRepeats` | web3/connection.go:2063-2069 | with a server that serves two blockhashes in turn, three equal sends already do |
| `BlockhashCache.ReusedIsYoung` | web3/connection.go:2027-2041 | in every run a reused blockhash was fetched at an earlier clock reading under 30 seconds ago |
| `BlockhashCache.NotExpiredIsYoung` | web3/connection.go:2033-2034 | the unsigned age test is that, except for a clock jumping back over nearly all of its 64 bits |
| `BlockhashCache.FetchReusesOrReplaces` | web3/connection.go:2027-2077 | a fetch reuses exactly when caching is on and not expired, else replaces the blockhash by a different one and empties both lists, or fails and changes nothing |
| `BlockhashCache.Poll` | web3/connection.go:2043-2077 | a new blockhash is a server reply, never the cached one, stamped with a clock reading, with both lists empty; failure changes nothing |
| `BlockhashCache.PollStops` | web3/connection.go:2056-2076 | the first reply that fails is the result, the first with another blockhash is cached at the next clock reading, and if all repeat it gives up |
| `BlockhashCache.FetchPolls` | web3/connection.go:2056 | after 50 of them |
| `BlockhashCache.SigningLoop` | web3/connection.go:1940-1975 | the signing loop makes at most two passes, one if caching is disabled |
| `BlockhashCache.SentIsRecorded` | web3/connection.go:1940-1981 | what a successful send or simulation with signers hands over was signed under the blockhash now cached and starts with the signature just recorded, new to the list of its kind |
| `BlockhashCalls.NonceCallHandsOver` | web3/connection.go:1929-1933 | with a nonce and signers, sending and simulating leave the cache alone and succeed exactly if the transaction compiles with the signers' slots, all distinct signers answer, each required key's answer is not zero and verifies, and it fits; the bytes are those answers and that message |
| `BlockhashCalls.NonceGoesOut` | web3/transaction_legacy.go:191-197 | that message is compiled under the nonce |
| `BlockhashCalls.UnsignedSendHandsOver` | web3/connection.go:1934-1946 | without signers a send needs a first signature and hands over the signatures given exactly if they are those of the required keys in order, verify, and fit |
| `BlockhashCalls.UnsignedSimulationHandsOver` | web3/connection.go:990-1003 | without signers a simulation fetches a blockhash first and hands over the signatures given under it, or under the nonce, on those same conditions |
| `BlockhashCalls.LoopHandsOver` | web3/connection.go:1940-1981 | with signers and no nonce, what goes out under the blockhash now cached: the answers of the required signers to the message compiled under it |
| `BlockhashCalls.LoopFails` | web3/connection.go:1940-1975 | how a pass ends the loop: no blockhash, signing fails, an empty first signature, or a new one recorded, with the transaction and lists left |
| `BlockhashCalls.SendLeaves` | web3/connection.go:1918-1981 | the transaction a send leaves behind on every path, errors included |
| `BlockhashCalls.CallResult` | web3/connection.go:1971-1981 | what signing fails with is the result, and otherwise what serializing gives |
| `BlockhashCalls.SimulationFaults` | web3/connection.go:977-983 | simulating without a fee payer faults |
| `BlockhashCache.Connection.AttemptPolls` | web3/connection.go:2056-2076 | up to 50 replies are read until one differs from the cached blockhash |
| `BlockhashCache.Connection.PollNewBlockhash` | web3/connection.go:2043-2077 | that, with the polling flag lowered on every path |
| `BlockhashCache.Connection.BlockhashWithExpiryBlockHeight` | web3/connection.go:2027-2041 | a reuse or a poll, in every case as FetchReusesOrReplaces says |
| `BlockhashCache.Connection.SignUntilNew` | web3/connection.go:991-1025 | the loop of both calls, with the transaction, cache and number of passes it ends with |
| `BlockhashCache.Connection.SendTransaction` | web3/connection.go:1918-1981 | bytes handed over, transaction and cache after every path, errors included |
| `BlockhashCache.Connection.SimulateTransaction` | web3/connection.go:977-1031 | the same on a copy: the caller's transaction is not written |
| `EpochSchedules.SlotIsFirstPlusIndex` | web3/epoch_schedule.go:38-73 | every placeable slot is the first slot of its reported epoch plus its index, and the index is within the epoch |
| `EpochSchedules.FirstPlusIndexIsSlot` | web3/epoch_schedule.go:38-73 | conversely every index of every epoch is reported for its slot, warm-up and normal |
| `EpochSchedules.EpochsTile` | web3/epoch_schedule.go:55-73 | each epoch's last slot plus one is the next one's first |
| `EpochSchedules.EpochLengths` | web3/epoch_schedule.go:55-73 | 32 slots in the first warm-up epoch, twice as many in each next one, then the normal length, each epoch starting where those before it end |
| `EpochSchedules.UnplaceableSlots` | web3/epoch_schedule.go:39-44 | a warm-up slot gets a real epoch exactly when slot + 33 is at most 2^62; otherwise there are 58 warm-up epochs and the answer is epoch -6 |
| `EpochSchedules.SlotInEpochMinusSix` | web3/epoch_schedule.go:39-44 | a schedule with 58 warm-up epochs reports slot 2^62 in epoch -6 |
| `EpochSchedules.NextPowerOfTwoLeast` | web3/epoch_schedule.go:75-96 | for 1 <= n <= 2^62 the shift-and-or cascade gives the least power of two not below n, and trailingZeros its exponent |
| `EpochSchedules.SmearDoubles` | web3/epoch_schedule.go:89-94 | each step doubles the run of leading ones |
| `EpochSchedules.TrailingZerosLog` | web3/epoch_schedule.go:75-82 | counting halvings gives the base-2 logarithm, rounded down |
| `EpochSchedules.ComputePowInt` | web3/utils/powInt.go:3-9 | the loop computes the power, and runs no times for a negative exponent |
| `EpochSchedules.CountTrailingZeros` | web3/epoch_schedule.go:75-82 | the loop counts the halvings |
| `EpochSchedules.ComputeNextPowerOfTwo` | web3/epoch_schedule.go:84-96 | the six assignments and the increment compute the cascade the lemma above is about |
| `TokenExtensions.TypesOfEncoding` | web3kit/tokens_2022.go:78-98 | on the encoding of any list the type walker returns the tags in order; one to three trailing bytes are an error |
| `TokenExtensions.DataOfEncoding` | web3kit/tokens_2022.go:100-122 | the data walker returns the first payload with the tag or nothing, also with fewer than four trailing bytes |
| `TokenExtensions.GetExtensionType` | web3kit/tokens_2022.go:78-98 | the loop on any bytes, errors included |
| `TokenExtensions.GetExtensionData` | web3kit/tokens_2022.go:100-122 | the loop on any bytes, a fault where a payload runs past the end |
| `TokenExtensions.GetMintLen` | web3kit/tokens_2022.go:54-76 | the exact length, and data of that length passes the length guards |
| `TokenExtensions.MintLenFits` | web3kit/tokens_2022.go:54-76 | for any extensions whose payloads have the lengths of their types, that length is an account of 165 bytes, the type byte and the encoded list, tags and lengths included, plus two bytes at 355; such data unpacks |
| `TokenExtensions.MintDataWalks` | web3kit/tokens_2022.go:78-122 | and both walkers read the list back from it, the type walker failing exactly where those two bytes were added |
| `TokenExtensions.MintLenFails` | web3kit/tokens_2022.go:64-67 | the first type without a fixed length is the error |
| `TokenExtensions.TypeLenMeaning` | web3kit/tokens_2022.go:124-165 | the table gives each type the sum of the sizes of its fields |
| `TokenExtensions.TypesAt` | web3kit/tokens_2022.go:78-98 | one step of the type walker on any bytes |
| `TokenExtensions.DataAt` | web3kit/tokens_2022.go:100-122 | one step of the data walker on any bytes |
| `TokenExtensions.UnpackMeaning` | web3kit/tokens_2022.go:230-264 | which lengths and type bytes UnpackMint lets through |

## Left out

- Keys, signatures and blockhashes are bytes: strings that are not valid base 58 are not modelled. A blockhash may have any length, as the source never checks it, except that an empty blockhash string does not decode and faults when serialized, where the model writes no bytes; and an address table is a key and its list of keys.
- Ed25519: a signer is a function from bytes to an answer or an error, verification any predicate.
- `sort.Sort` is used by its contract (a sorted permutation), not modelled step by step.
- `Message` and `MessageV0` are values that methods take and return, not receivers updated in place; the elements of Go slices are not shared between values, and a slice's capacity is its length.
- Long Go functions are split: inner loops are methods of their own, and `SignUntilNew` is the loop that `SendTransaction` and `SimulateTransaction` each write out.
- EveryRunIsSound: runs are sequential, as the cache has no locks; waiting for a poll under way is therefore never needed. Sleeping, logging and the clock readings that only go into an error message are not modelled.
- SendTransaction: sending a `VersionedTransaction`, which bypasses the cache, and the request itself, including encoding, are not modelled.
- PopulateReproduces: messages of over 256 keys, whose indexes are cut to bytes, are not covered; signatures are taken as already decoded.
- SlotIsFirstPlusIndex: slots are non-negative and arithmetic is unbounded except for the final increment of the smear. On 64-bit slots a valid schedule overflows elsewhere only in `slot + 33` at the single slot 2^63 - 33, where wrapping leads to the same epoch -6.
- DeserializeMessage: `make` faults past a fixed limit of 2^48 bytes, that of 64-bit Linux; running out of memory below it, and other limits on other platforms, are not modelled.
- DeserializeMessageV0: the same limit.
- NewTransactionMessageFrom: header counts are subtracted as unbounded integers, where Go integers wrap, so a header with counts near the ends of 64 bits can be accepted by one and rejected by the other. `V0FlagsAgree` and `LegacyFlagsAgree` speak of counts whose differences do not wrap.
- SignedRoundTrip: only decoding after encoding is claimed. Reads may be short and lengths need not be minimal, so other bytes decode to the same transaction.
- `VersionedTransaction.Version`, which answers legacy for every message (web3/transaction_versioned.go:58-60), against what its name promises.
- Adding instructions from builders, JSON forms, the confirmation strategies, HTTP and websocket plumbing, the program loader, `utils/set.go`: input and output or easy next to the rest.
- Generated instruction builders, Borsh structs, filter offsets and the decoding of a lookup table account: fixed layouts.
- `UnpackMint` beyond its length and type guards: the mint fields are Borsh.
