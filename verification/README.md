# The IDL compiler and the form registries: a verified model

This project models two parts of the OpenHarmony ability framework and proves what they keep.

**The IDL compiler**, stage by stage.

- `Lexer.dfy`, `TypeText.dfy`, `SourceText.dfy`, `TypeTable.dfy`, `Parser.dfy`: the lexer with its one-token lookahead and
  the recursive descent parser with error recovery. Both come to an end on every text, by a measure over unread
  characters and the lookahead. `SourceText.dfy` says on the characters what types, parameters, methods, interfaces and
  whole files read as, and the parser accepts a text exactly if it reads so. The type table is interned by printed name.
- `PrintedText.dfy`, `SourceGrammar.dfy`: what is read, said without a reader. Declarations written out letter by letter
  read as themselves, whatever reads can be written out, and a text reads as declarations exactly if its words are those
  of a grammar.
- `Namespaces.dfy`: the namespace trie behind dotted names.
- `StringPools.dfy`, `MetadataBlocks.dfy`, `MetadataBuilder.dfy`, `MetadataLayout.dfy`: the metadata builder, a two-pass
  arena allocator over a word-addressed memory with the record sizes of a 64-bit machine. `ParsedModules.dfy` carries the
  parser's guarantees to it, and `MetadataDumper.dfy` reads the types back.
- `MetadataSerializer.dfy`, `Relocation.dfy`, `MetadataShipping.dfy`: making a block's pointers relative and absolute in
  place, and what of a block is saved and loaded.
- `MetadataReading.dfy`: the whole module read back from a block, by literal offsets, where it was built and where it was
  moved.
- `Compilation.dfy`: from the text to the block and back to the printed types.
- `CppEmitter.dfy`, `EmittedNamespaces.dfy`: the C++ emitter, with the emitted text as a small statement tree.
  `WireFormat.dfy` defines what goes over the wire, `CppSemantics.dfy` gives the statements a meaning over parcels, and
  `RemoteCall.dfy` puts proxy, dispatch and stub together.
- `IdlTypes.dfy`, `IdlAst.dfy`, `Signatures.dfy`, `Strings.dfy`: types, syntax trees, method signatures and the string
  searches they rest on.

**The form registries** of the form manager service.

- `FormTypes.dfy`, `FormDataMgr.dfy`: form records, the list of temporary forms and the host applications.
- `FormDbCache.dfy`: the cache of normal forms over a key-value store.
- `FormMgrAdapter.dfy`, `FormSysEvents.dfy`: the public calls and the system events, as methods over both registries.
- `FormInvariants.dfy`, `FormRuns.dfy`, `FormInvalidForms.dfy`, `FormStoreSync.dfy`: what holds over whole runs.
- `FormLaws.dfy`: what each call and event does, said on the registries before and after: who becomes or stops being a
  user of which form, what stays, and when the answer is Ok.
- `FormInfoMgr.dfy`, `FormInfoRuns.dfy`, `FormInfoMgrRuns.dfy`, `FormInfoLaws.dfy`: static and dynamic form information,
  over runs of one bundle's object and over runs of the manager that makes and drops them, and what each call means.

Objects whose methods change their fields are classes; a loop in the source is a loop here. Each such method is proved
against a specification function of the old state, and the theorems are lemmas about those functions.

Some statements correct what one might expect of the code:

- Index 0 is never looked at by the character form of `LastIndexOf` (`Strings.LastIndexOfCharIsLast` says when it
  matters).
- Command names of methods can clash (`CppEmitter.CommandsCanClash`), and then and only then a method misses its stub case
  (`RemoteCall.DispatchIff`). Nested containers do not compile (`CppSemantics.NestedNamesClash`).
- The two passes of the metadata builder agree only if the string pool's size is a multiple of 8
  (`MetadataLayout.TwoPasses`). Otherwise the builder and the serializer reach past the block they allocated, unless the
  type listed last leaves as much unused (`MetadataShipping.BlockFits`, `MetadataShipping.SmallModuleOverruns`).
- The sweeps that take a uid off many database entries leave it in the store (`FormStoreSync.InvalidSyncsIff`,
  `FormStoreSync.ClearedSyncsIff`; runs on which that happens are `FormStoreSync.InvalidParts` and
  `FormStoreSync.ClearingParts`).
- Behind three dots in a row in a namespace one block more is opened than closed (`EmittedNamespaces.EmitAround`).
- What is read into an inout collection is added to what the caller had in it (`CppSemantics.InOutsAreAdded`).
- Removing all dynamic forms is never stored, so memory and store part exactly until the next stored call
  (`FormInfoRuns.RunStores`), and a form added to a bundle that is not in memory overwrites all that was stored for it
  (`FormInfoRuns.StoredAfterAdd`, `FormInfoRuns.AddTwice`).
- Looking a type up after an undeclared name followed by brackets dereferences a null element in the source; here the
  parse fails.

## Model

| member | source | states |
|---|---|---|
| RemoteCall.RemoteCallIsLocal | idl/codegen/cpp_code_emitter.cpp:401-620 | for every callable two-way method of an interface with distinct command names, running the emitted proxy body, dispatch, the emitted stub case and the proxy's reply reading calls the implementation once, with exactly the caller's in arguments, hands the caller exactly the implementation's error code and, on success, its outs and result, leaves everything else as it was, and consumes both parcels |
| RemoteCall.StubRuns | idl/codegen/cpp_code_emitter.cpp:558-620 | the emitted stub case reads exactly the encoding of the in parameters from the front of the request, calls the implementation once with them and answers with its outcome; what lies behind in the request is untouched |
| RemoteCall.DispatchExact | idl/codegen/cpp_code_emitter.cpp:622-629 | a request sent under a method's command name reaches that method's stub case and no other, when command names are distinct |
| RemoteCall.DispatchIff | idl/codegen/cpp_code_emitter.cpp:622-629 | for every list of methods: each method's command selects its own stub case exactly when no two methods share a command |
| RemoteCall.OneWayCallDelivers | idl/codegen/cpp_code_emitter.cpp:401-442 | for every callable one-way method the same proxy sends the encoding of all in arguments, the stub calls the implementation once with exactly those, and the proxy returns ERR_OK with the caller's variables unchanged, whatever the implementation answers |
| RemoteCall.SendsOnce | idl/codegen/cpp_code_emitter.cpp:418-426 | every proxy body sends one request, and without waiting for an answer exactly if its method is one-way |
| RemoteCall.LostRequest | idl/codegen/cpp_code_emitter.cpp:418-426 | when the transport fails, of a one-way method or not, the proxy has written all in arguments, calls nothing, returns the transport's status and changes none of the caller's variables |
| CppEmitter.Emitter.EmitInterfaceProxyMethodBody | idl/codegen/cpp_code_emitter.cpp:401-442 | appends the statements of the proxy body: in parameters, send, error codes, out parameters and result |
| CppEmitter.Emitter.EmitInterfaceStubMethodImpl | idl/codegen/cpp_code_emitter.cpp:558-620 | appends the statements of the stub case: locals read in order, the call, the error code and the reply |
| CppEmitter.Emitter.EmitWriteVariable | idl/codegen/cpp_code_emitter.cpp:672-727 | appends the write statements of a variable, by recursion over its type |
| CppEmitter.Emitter.EmitReadVariable | idl/codegen/cpp_code_emitter.cpp:729-846 | appends the read statements of a variable, by recursion over its type, declaring it where asked |
| CppEmitter.Emitter.EmitInterfaceMethodCommands | idl/codegen/cpp_code_emitter.cpp:622-629 | numbers the command names of the methods in order of declaration |
| CppEmitter.Emitter.EmitConstantName | idl/codegen/cpp_code_emitter.cpp:1049-1070 | the loop over the characters computes the constant's name: COMMAND_, upper case, an underscore before an inner capital |
| CppEmitter.CommandSpelled | idl/codegen/cpp_code_emitter.cpp:1049-1070 | letter by letter: the text emitted for a method name so far is followed by the next letter in upper case, behind an underscore exactly if it was a capital behind the second place |
| CppEmitter.CommandsCanClash | idl/codegen/cpp_code_emitter.cpp:1049-1070 | a pair of names for which the condition fails: toDo and to_do get the same command |
| CppEmitter.OutsReachCaller | idl/codegen/cpp_code_emitter.cpp:883-1004 | the C++ type emitted for an out-only parameter is a reference to something that can be assigned, so what the stub assigns reaches the caller, exactly for types that are not sequenceable |
| CppEmitter.InOutsReachCaller | idl/codegen/cpp_code_emitter.cpp:883-1004 | what is assigned to an inout parameter reaches the caller exactly for containers; a String, and nothing else, is passed by a reference to a constant |
| CppSemantics.WritesEncoding | idl/codegen/cpp_code_emitter.cpp:672-727 | running the emitted write statements of an unnested type appends exactly the encoding of the variable's value |
| CppSemantics.ReadsEncoding | idl/codegen/cpp_code_emitter.cpp:729-846 | running the emitted read statements on a parcel that starts with an encoding assigns the value, with out containers starting empty, and leaves the rest of the parcel |
| CppSemantics.ReadsInto | idl/codegen/cpp_code_emitter.cpp:765-846 | into a collection that is not empty, as the caller's of an inout parameter, the emitted code reads on: a list gets longer, a map gets the entries read over its own |
| CppSemantics.InOutsAreAdded | idl/codegen/cpp_code_emitter.cpp:429-441 | so an inout list comes back as the implementation left it exactly if the caller's was empty, and an inout map with the implementation's keys exactly if the caller's had no others |
| CppSemantics.NestedNamesClash | idl/codegen/cpp_code_emitter.cpp:706-846 | the names the emitted loops declare clash exactly when a container is in a container: the loops then declare `it` or `value` again and do not compile |
| WireFormat.PrefixDecodable | idl/codegen/cpp_code_emitter.cpp:672-846 | decoding the encoding of any value of any type, of whatever depth, followed by any rest gives back the value and the rest |
| WireFormat.AnyOrderDecodes | idl/codegen/cpp_code_emitter.cpp:694-724 | in whatever order a map's entries were written, at any depth, what is decoded means the same map as what was encoded, and the rest of the parcel is left |
| EmittedNamespaces.EmitBeginNamespace | idl/codegen/cpp_code_emitter.cpp:649-658 | opens one block for every part a dot follows, in order, the empty ones too; for a dotted namespace these are its segments |
| EmittedNamespaces.EmitEndNamespace | idl/codegen/cpp_code_emitter.cpp:660-670 | closes one block for every part behind a dot that is not the first character, the last one first, and one for what is left; for a dotted namespace these are its segments |
| EmittedNamespaces.EmitAround | idl/codegen/cpp_code_emitter.cpp:649-670 | for every namespace that ends in a dot: the names closed are those opened, in reverse order, exactly when what is left behind the file path does not start with a dot, and otherwise one block more is opened than closed |
| EmittedNamespaces.ThreeDots | idl/codegen/cpp_code_emitter.cpp:649-670 | an input for which they do not match: the namespace a...b. |
| EmittedNamespaces.GetNamespace | idl/codegen/cpp_code_emitter.cpp:119-127 | cuts the file path off, at the first double dot |
| MetadataLayout.TwoPasses | idl/metadata/metadata_builder.cpp:54-270 | for every module the written component is as long as the measured one plus the padding of the string pool: never more than 7 bytes longer, and equal exactly when the pool's size is a multiple of 8 |
| MetadataLayout.FirstPass | idl/metadata/metadata_builder.cpp:61-207 | the measured size as a sum over headers, tables, records and the pool |
| MetadataLayout.PlacedApart | idl/metadata/metadata_builder.cpp:209-445 | everything the second pass places starts at a multiple of 8 and ends before the next thing starts |
| MetadataLayout.StringsReadBack | idl/metadata/metadata_builder.cpp:447-450 | every non-empty string of the module, looked up in the second pass, was added in the first and reads back from the pool intact |
| MetadataLayout.BuildAndMove | idl/metadata/metadata_builder.cpp:209-270 | a module built at one address, serialized, copied over the whole extent the second pass wrote and deserialized at another: every pointer slot, null ones too, arrives moved by the distance, every other cell as it was |
| MetadataReading.BuiltReads | idl/metadata/metadata_builder.cpp:215-445 | a built block, followed by its literal offsets, is the module it was built from: every name, namespace, licence and signature is the text at its pointer, every count, one-way and external flag that of the declaration, bit 0 of a parameter's attributes says in and bit 1 out, and every type index leads to a record that reads, down to its element types, as the type |
| MetadataReading.MovedReads | idl/metadata/metadata_serializer.cpp:20-222 | so does the block serialized, copied and deserialized at any other address, where every pointer leads into the moved block and a null pointer has become the distance |
| MetadataReading.MovedDumps | idl/metadata/metadata_dumper.cpp:225-273 | on the moved block the dumper prints every listed type as its text |
| MetadataReading.BuildMoveAndRead | idl/metadata/metadata_serializer.cpp:20-222 | building, serializing, copying and deserializing as the source does leaves the module readable before and after |
| MetadataShipping.BlockFits | idl/metadata/metadata_builder.cpp:29-52 | the block is allocated, saved and loaded with the measured size: all that the builder and the serializer touch lies within it exactly when the padding of the pool is no longer than the bytes the last listed type reserves for nested indexes and does not use (0, 4 for a list or array, 8 for a map) |
| MetadataShipping.BuildAndShip | idl/metadata/metadata_reader.cpp:40-73 | such a block, saved with its measured size and loaded at another address, arrives with every pointer slot moved by the distance and every other cell as it was, and reads there as the module it was built from |
| MetadataShipping.SmallModuleOverruns | idl/metadata/metadata_builder.cpp:29-52 | a module that does not fit: what `interface a.I { void f(); }` declares, with a primitive type listed last, has a pool of 13 bytes, and its block reaches 3 bytes past the allocation |
| MetadataBuilder.Builder.Build | idl/metadata/metadata_builder.cpp:29-52 | a valid module yields a block that holds the component laid out at the given base, with the measured size in its header and the pool filled; an invalid one yields none |
| MetadataBuilder.Builder.CalculateMetadataSize | idl/metadata/metadata_builder.cpp:54-59 | leaves the measured size and the strings of the module in order of first use |
| MetadataBuilder.Builder.CalculateMetaComponent | idl/metadata/metadata_builder.cpp:61-101 | advances the measure by the aligned extent of the component's header, tables and records and pools its strings |
| MetadataBuilder.Builder.CalculateMetaNamespace | idl/metadata/metadata_builder.cpp:103-124 | advances the measure by the aligned extent of a namespace and those inside it, with their index arrays and pools its strings |
| MetadataBuilder.Builder.CalculateMetaSequenceable | idl/metadata/metadata_builder.cpp:126-134 | advances the measure by the aligned extent of a sequenceable and pools its strings |
| MetadataBuilder.Builder.CalculateMetaInterface | idl/metadata/metadata_builder.cpp:136-153 | advances the measure by the aligned extent of an interface, its method table and methods and pools its strings |
| MetadataBuilder.Builder.CalculateMetaMethod | idl/metadata/metadata_builder.cpp:155-171 | advances the measure by the aligned extent of a method, its parameter table and parameters and pools its strings |
| MetadataBuilder.Builder.CalculateMetaParameter | idl/metadata/metadata_builder.cpp:173-180 | advances the measure by the aligned extent of a parameter and pools its strings |
| MetadataBuilder.Builder.CalculateMetaType | idl/metadata/metadata_builder.cpp:182-199 | advances the measure by the aligned extent of a type record and its nested indexes |
| MetadataBuilder.Builder.WriteMetadata | idl/metadata/metadata_builder.cpp:209-213 | memory from the base on holds the record of the whole component, advancing by its extent; nothing below is touched |
| MetadataBuilder.Builder.WriteMetaComponent | idl/metadata/metadata_builder.cpp:215-270 | memory from the base on holds the record of the header, the tables, the pool and all records, advancing by its extent; nothing below is touched |
| MetadataBuilder.Builder.WriteMetaNamespace | idl/metadata/metadata_builder.cpp:272-313 | memory from the base on holds the record of a namespace with its indexes and inner namespaces, advancing by its extent; nothing below is touched |
| MetadataBuilder.Builder.WriteMetaSequenceable | idl/metadata/metadata_builder.cpp:315-326 | memory from the base on holds the record of a sequenceable, advancing by its extent; nothing below is touched |
| MetadataBuilder.Builder.WriteMetaInterface | idl/metadata/metadata_builder.cpp:328-352 | memory from the base on holds the record of an interface with its methods, advancing by its extent; nothing below is touched |
| MetadataBuilder.Builder.WriteMetaMethod | idl/metadata/metadata_builder.cpp:354-377 | memory from the base on holds the record of a method with its parameters, advancing by its extent; nothing below is touched |
| MetadataBuilder.Builder.WriteMetaParameter | idl/metadata/metadata_builder.cpp:379-396 | memory from the base on holds the record of a parameter, advancing by its extent; nothing below is touched |
| MetadataBuilder.Builder.WriteMetaType | idl/metadata/metadata_builder.cpp:398-445 | memory from the base on holds the record of a type with the indexes of its element types, advancing by its extent; nothing below is touched |
| MetadataBuilder.Builder.WriteString | idl/metadata/metadata_builder.cpp:447-450 | the pointer to a string of the pool, null for a string never set |
| MetadataBuilder.Builder.IndexOfType | idl/ast/ast_module.cpp:190-199 | the position of the first entry of the type table with this object, or -1 |
| MetadataBuilder.KindTells | idl/metadata/metadata_builder.cpp:452-486 | two types get the same kind number exactly when they are of the same kind, primitives of the same primitive, and none is Unknown |
| MetadataSerializer.Serializer.Serialize | idl/metadata/metadata_serializer.cpp:20-23 | every pointer slot of the component, and nothing else, is made relative to the base, once |
| MetadataSerializer.Serializer.Deserialize | idl/metadata/metadata_serializer.cpp:122-125 | every pointer slot of the component, and nothing else, is made absolute at the base, once |
| MetadataSerializer.Serializer.SerializeMetaComponent | idl/metadata/metadata_serializer.cpp:25-58 | subtracts the base from exactly the pointer slots of a component |
| MetadataSerializer.Serializer.SerializeMetaNamespace | idl/metadata/metadata_serializer.cpp:60-72 | subtracts the base from exactly the pointer slots of a namespace tree |
| MetadataSerializer.Serializer.SerializeMetaSequenceable | idl/metadata/metadata_serializer.cpp:74-78 | subtracts the base from exactly the pointer slots of a sequenceable |
| MetadataSerializer.Serializer.SerializeMetaInterface | idl/metadata/metadata_serializer.cpp:80-92 | subtracts the base from exactly the pointer slots of an interface tree |
| MetadataSerializer.Serializer.SerializeMetaMethod | idl/metadata/metadata_serializer.cpp:94-105 | subtracts the base from exactly the pointer slots of a method tree |
| MetadataSerializer.Serializer.SerializeMetaParameter | idl/metadata/metadata_serializer.cpp:107-110 | subtracts the base from exactly the pointer slots of a parameter |
| MetadataSerializer.Serializer.SerializeMetaType | idl/metadata/metadata_serializer.cpp:112-115 | subtracts the base from exactly the pointer slots of a type |
| MetadataSerializer.Serializer.DeserializeMetaComponent | idl/metadata/metadata_serializer.cpp:127-160 | adds the base to exactly the pointer slots of a component |
| MetadataSerializer.Serializer.DeserializeMetaNamespace | idl/metadata/metadata_serializer.cpp:162-174 | adds the base to exactly the pointer slots of a namespace tree |
| MetadataSerializer.Serializer.DeserializeMetaSequenceable | idl/metadata/metadata_serializer.cpp:176-180 | adds the base to exactly the pointer slots of a sequenceable |
| MetadataSerializer.Serializer.DeserializeMetaInterface | idl/metadata/metadata_serializer.cpp:182-194 | adds the base to exactly the pointer slots of an interface tree |
| MetadataSerializer.Serializer.DeserializeMetaMethod | idl/metadata/metadata_serializer.cpp:196-207 | adds the base to exactly the pointer slots of a method tree |
| MetadataSerializer.Serializer.DeserializeMetaParameter | idl/metadata/metadata_serializer.cpp:209-212 | adds the base to exactly the pointer slots of a parameter |
| MetadataSerializer.Serializer.DeserializeMetaType | idl/metadata/metadata_serializer.cpp:214-217 | adds the base to exactly the pointer slots of a type |
| Relocation.Relocate | idl/metadata/metadata_serializer.cpp:20-222 | serializing at one base, copying the component and deserializing at another adds the distance to every pointer slot and leaves every other cell as it was |
| Relocation.InBlockPointer | idl/metadata/metadata_serializer.cpp:117-120 | a pointer into the block keeps its offset from the base |
| Relocation.NullPointer | idl/metadata/metadata_serializer.cpp:219-222 | a null pointer is moved like any other: it stays null exactly when the bases are equal |
| Relocation.RestoredInPlace | idl/metadata/metadata_serializer.cpp:20-222 | with equal bases the block is restored exactly |
| MetadataDumper.DumpMetaType | idl/metadata/metadata_dumper.cpp:225-273 | on a component whose type graph denotes a closed type table, the reader prints exactly the type's name, and its recursion ends |
| MetadataDumper.BlockDenotesTypes | idl/metadata/metadata_dumper.cpp:225-273 | for every module with a closed type table, dumping the record a type's index leads to prints that type |
| MetadataDumper.IndexLeadsBack | idl/ast/ast_module.cpp:190-199 | the index written for a type of the table leads back to exactly that type |
| MetadataDumper.IndexesInRange | idl/metadata/metadata_builder.cpp:265-445 | every return type, parameter type and nested type index of the block is in range |
| MetadataDumper.BuiltGraph | idl/metadata/metadata_builder.cpp:398-445 | in a built block the record at every index of the type table is the record of that type |
| StringPools.StringPool.Add | idl/util/string_pool.cpp:39-49 | a string that is neither empty nor pooled is appended to the pooled strings, anything else changes nothing |
| StringPools.StringPool.AddInternal | idl/util/string_pool.cpp:56-69 | appends the characters and a NUL at the end of the data, growing the buffer if needed |
| StringPools.StringPool.Grow | idl/util/string_pool.cpp:71-95 | the new buffer is large enough and starts with the old data |
| StringPools.StringPool.GetOffset | idl/util/string_pool.cpp:51-54 | the offset given when the string was added; one never added gets offset 0 |
| StringPools.RangesDisjoint | idl/util/string_pool.cpp:39-69 | different pooled strings occupy disjoint ranges inside the data |
| StringPools.ReadsBack | idl/util/string_pool.cpp:39-69 | reading from a string's offset up to the NUL gives the string |
| StringPools.OffsetsNeverChange | idl/util/string_pool.cpp:39-69 | further additions do not change the offset of a pooled string |
| StringPools.SizeIsTotal | idl/util/string_pool.cpp:56-69 | the data is as long as the strings together, with a NUL each |
| StringPools.EmptyStringReadsOldest | idl/util/string_pool.cpp:41-54 | an empty string is not pooled: its offset is that of the first string |
| Strings.IndexOfChar | idl/util/string.cpp:224-245 | the first occurrence of a character from an index on, or -1 |
| Strings.IndexOf | idl/util/string.cpp:263-277 | the first match from an index on, or -1 |
| Strings.LastIndexOfChar | idl/util/string.cpp:279-298 | the last occurrence up to an index, except that index 0 is never looked at |
| Strings.LastIndexOfCharIsLast | idl/util/string.cpp:279-298 | that is the last occurrence exactly when there is none at index 0 or one further right |
| Strings.LastIndexOfInternal | idl/util/string.cpp:330-364 | the greatest match start not above the index, or -1; the loop with its jumps ends |
| Strings.LastIndexOf | idl/util/string.cpp:315-328 | the last match up to an index, or -1 |
| Strings.Replace | idl/util/string.cpp:541-563 | leftmost non-overlapping replacement |
| Strings.ScopedNameRoundTrip | idl/codegen/cpp_code_emitter.cpp:1006-1013 | a name without colons is unchanged by turning dots into double colons and back |
| Signatures.ASTMethod.BuildSignature | idl/ast/ast_method.cpp:29-38 | the loop concatenates the return type's code in parentheses and the parameter types' codes |
| Signatures.ASTMethod.GetSignature | idl/ast/ast_method.cpp:21-27 | builds the signature once and keeps it |
| Signatures.PrefixFree | idl/ast/ast_map_type.cpp:20-23 | no type's code is a proper prefix of another's, so equal beginnings mean equal types |
| Signatures.SignatureDecodable | idl/ast/ast_method.cpp:29-38 | with names declared once each, equal signatures mean the same return type and the same list of parameter types |
| Signatures.SignaturesSpelled | idl/ast/ast_map_type.cpp:20-23 | what each primitive type, a list, a map, an array and a declared type contribute, spelled out |
| Signatures.SignatureIsOrdered | idl/ast/ast_method.cpp:29-38 | a method's signature is its result's in parentheses, and each further parameter adds its own at the end |
| Namespaces.ASTNamespace.AddNamespace | idl/ast/ast_namespace.cpp:27-35 | the namespace is appended and points outward to this one |
| Namespaces.ASTNamespace.FindNamespace | idl/ast/ast_namespace.cpp:37-49 | the first inner namespace with the name; an empty name is never found |
| Namespaces.ASTNamespace.ToString | idl/ast/ast_namespace.cpp:96-105 | the walk over the outer pointers ends and prints the full dotted name |
| Namespaces.ASTModule.FindNamespace | idl/ast/ast_module.cpp:94-102 | the first top namespace with the name |
| Namespaces.ASTModule.ParseNamespace | idl/ast/ast_module.cpp:59-84 | the loop leads, part by part, to a namespace whose full name is the path up to its last dot; nodes that were there keep their names and places |
| Namespaces.ParseAndPrint | idl/ast/ast_module.cpp:59-84 | parsing a path that ends in a dot and printing the namespace gives the path |
| Namespaces.ParseAgain | idl/ast/ast_module.cpp:59-84 | a second parse of a path without empty parts returns the same object, whatever was parsed in between |
| Namespaces.ResolveStays | idl/ast/ast_module.cpp:59-84 | a path that leads to a namespace leads to it in every later trie |
| Lexing.Lexer.GetToken | idl/parser/lexer.cpp:75-82 | the token that starts at the logical position, which moves behind it; what is left to read gets less unless the file is at its end |
| Lexing.Lexer.PeekToken | idl/parser/lexer.cpp:84-91 | the same token, without moving the logical position; never increases what is left |
| Lexing.Lexer.ReadToken | idl/parser/lexer.cpp:93-161 | the next token as the reference scanner defines it, comments skipped or not |
| Lexing.Lexer.ReadIdentifier | idl/parser/lexer.cpp:163-189 | the longest word, one white space character behind it swallowed, told apart from keywords |
| Lexing.BlanksAndWords | idl/parser/lexer.cpp:93-189 | which characters are passed over between tokens, which start a word and which go on with it |
| Lexing.LineEndsBehindNewline | idl/parser/lexer.cpp:191-206 | a line comment ends behind the first newline, or with the text |
| Lexing.BlockEndsBehindStarSlash | idl/parser/lexer.cpp:208-225 | a block comment ends behind the first star and slash, the star that opens it included, or with the text |
| Lexing.Lexer.ReadLineComment | idl/parser/lexer.cpp:191-206 | goes behind the end of the line |
| Lexing.Lexer.ReadBlockComment | idl/parser/lexer.cpp:208-225 | goes behind the first closing star and slash, and keeps the comment's text |
| Lexing.Lexer.SkipCurrentLine | idl/parser/lexer.cpp:227-236 | skips characters, a token read ahead being kept; what is left never gets more |
| Lexing.Lexer.SkipCurrentLineUntil | idl/parser/lexer.cpp:238-251 | the same, up to a character |
| Lexing.NamesAreScanned | idl/parser/lexer.cpp:163-189 | every identifier token is a word that starts with a letter or underscore and is no keyword |
| Parsing.Parser.ParseFile | idl/parser/parser.cpp:54-86 | comes to an end on every text, with everything read; it finds no error, and leaves distinct names, exactly if the text reads as declarations with new names, and then it has added those, with these contents, and left the type table in good order |
| Parsing.Parser.Parse | idl/parser/parser.cpp:34-52 | success means an interface was defined; in a module without interfaces it succeeds, with distinct names, exactly if the text reads as declarations with new names and one of them is an interface with methods |
| Parsing.Parser.ParseLicense | idl/parser/parser.cpp:88-100 | a block comment at the very start, and only that, becomes the licence |
| Parsing.Parser.ParseInterface | idl/parser/parser.cpp:102-217 | always consumes a token, keeps earlier declarations; succeeds, with the name a new one, exactly if an interface reads here: one-way mark, namespace and name, and its methods, or a forward declaration; that is what is added |
| Parsing.Parser.ParseInterfaceStart | idl/parser/parser.cpp:104-140 | success means, and needs, that the tokens read are the keyword, behind the one-way brackets if there are any |
| Parsing.Parser.ParseInterfaceName | idl/parser/parser.cpp:141-173 | yields a name exactly if the next token is an identifier that is a valid name, dotted unless the target is TypeScript, and a semicolon or a brace follows |
| Parsing.Parser.ParseInterfaceBody | idl/parser/parser.cpp:193-216 | a first method is tried even before a closing brace; succeeds exactly if at least one method and the closing brace read here, and the interface added, with the module's licence, has exactly those methods |
| Parsing.Parser.SplitName | idl/parser/parser.cpp:174-181 | namespace and short name are the parts around the last dot |
| Parsing.Parser.ParseMethod | idl/parser/parser.cpp:219-356 | consumes a token or leaves a closing brace or nothing ahead, even across the skipped lines of its recovery; returns a method exactly if one reads here: mark, type, name, parameters, semicolon, and no result and no out parameter if it is one-way; it is that method |
| Parsing.Parser.ParseMethodHead | idl/parser/parser.cpp:219-317 | the one-way mark, the return type and the name in front of the parenthesis are found exactly if they read here |
| Parsing.Parser.ParseParameters | idl/parser/parser.cpp:318-326 | ends at the closing parenthesis or the end of the file; without error exactly if parameters read up to the parenthesis, with or without commas behind them, and then those in order |
| Parsing.Parser.ParseParameter | idl/parser/parser.cpp:358-440 | consumes a token or leaves a comma ahead, which its caller consumes; returns a parameter exactly if one reads here, with its directions, type and name |
| Parsing.Parser.ParseAttributes | idl/parser/parser.cpp:373-411 | succeeds exactly if directions read up to the closing bracket; they are in exactly if in or inout was read, and out exactly if out or inout was |
| Parsing.Parser.ParseType | idl/parser/parser.cpp:442-492 | returns the one object for the type's printed name, adds only composed types to the table, and does on the characters exactly what the reference reader does: same type and end, or failure |
| Parsing.Parser.ParseList | idl/parser/parser.cpp:494-528 | the same for a list type |
| Parsing.Parser.ParseMap | idl/parser/parser.cpp:530-578 | the same for a map type |
| Parsing.Parser.ParseSequenceable | idl/parser/parser.cpp:580-626 | succeeds, with the name a new one, exactly if a class declaration reads here, and adds that class, its full name split at the last dot; the type table stays in good order |
| PrintedText.ParamReads | idl/parser/parser.cpp:358-440 | a parameter written out letter by letter, [in], [out], [inout] or [], type and name, reads as exactly that parameter |
| PrintedText.MethodReads | idl/parser/parser.cpp:219-356 | a method written out, [oneway], type, name, parameters in parentheses and a semicolon, reads as exactly that method |
| PrintedText.InterfaceReads | idl/parser/parser.cpp:102-217 | an interface written out, [oneway], the word interface, its full name and its methods in braces or a semicolon, reads as exactly that interface |
| PrintedText.PrintedFileReads | idl/parser/parser.cpp:54-86 | a file of declarations written out, each using the names before it, reads as exactly those declarations |
| PrintedText.FilePrintsAgain | idl/parser/parser.cpp:54-86 | what any text reads as can be written out, and the written text reads as the same declarations |
| SourceGrammar.WordsReadAsType | idl/parser/parser.cpp:442-578 | what has the words of a type, whatever white space and comments are between them, reads as the type |
| SourceGrammar.ParamHasWords | idl/parser/parser.cpp:358-440 | what reads as a parameter has its words: a bracket, directions of which no two are side by side and any commas, a bracket, the words of the type, the name |
| SourceGrammar.MethodHasWords | idl/parser/parser.cpp:219-356 | what reads as a method has its words, with a comma or none behind each parameter and the semicolon at the end |
| SourceGrammar.ReadsIffGrammar | idl/parser/parser.cpp:54-86 | a text reads as declarations with new names exactly if its words, behind a comment that comes first, are words of those declarations by a grammar that mentions no position |
| SourceGrammar.KeywordsAreSpelled | idl/parser/lexer.cpp:23-45 | the keywords are these words and no others |
| Parsing.Parser.CheckIntegrity | idl/parser/parser.cpp:628-644 | whether some interface is defined, not only declared |
| Parsing.Parser.Intern | idl/parser/parser.cpp:481-489 | the object in the table under the printed name, or else the new one, which is added |
| Parsing.ParsedTwice | idl/parser/parser.cpp:442-492 | two parses of equal types return the same object |
| Parsing.PrintedTypeParses | idl/parser/parser.cpp:442-578 | a type of the grammar, printed and read at any place where no bracket follows, reads as the same type, and exactly its text is read |
| Parsing.ResultParsesAgain | idl/parser/parser.cpp:442-578 | whatever type the parser returned can be printed and parsed again |
| TypeText.ReadsBack | idl/parser/parser.cpp:442-578 | the reference reader gives back every type of the grammar from its text, of whatever depth |
| TypeText.TextDeterminesType | idl/ast/ast_map_type.cpp:30-33 | types of the grammar with the same printed text are equal |
| TypeTable.InternKeeps | idl/parser/parser.cpp:518-577 | adding a composed type keeps every key the printed name of its entry, addresses unique, nested types known, and what is found under a name equal to the type sought |
| TypeTable.SequenceableKeeps | idl/ast/ast_module.cpp:142-150 | declaring a class under a new name keeps the table in good order |
| TypeTable.EndKeeps | idl/ast/ast_module.cpp:113-121 | adding a parsed interface under a new name keeps the table in good order |
| TypeTable.FirstIsGood | idl/ast/ast_module.cpp:21-44 | the table a module starts with is in good order |
| ParsedModules.ParsedIsClosed | idl/ast/ast_module.cpp:113-199 | the table a successful parse with distinct names leaves behind is closed: every nested, return and parameter type is listed, under one address, and every named type is declared |
| ParsedModules.NamesMeant | idl/ast/ast_module.cpp:113-199 | in a table in good order every word stands for what it says: the word of a primitive type for that type, any other for a declaration with that short name |
| Compilation.ParseModule | idl/parser/parser.cpp:34-86 | for every text: it parses, with distinct names, exactly if it reads as declarations with new names of which one is an interface with methods; then the module is valid and closed, and its declarations are exactly those of the text, read with the words' own meaning: a primitive word as that primitive, any other word as the class or interface of the module with that name |
| Compilation.BuildAndDump | idl/metadata/metadata_dumper.cpp:225-273 | every type of a closed module is printed, from the block built for it, under its own name |
| Compilation.ParsePrinted | idl/parser/parser.cpp:34-86 | declarations, written out and parsed, are exactly the declarations of the module |
| Compilation.NormalForm | idl/parser/parser.cpp:34-86 | every program has a normal form: its declarations written out are a program with the same declarations |
| Compilation.ProgramsAreGrammatical | idl/parser/parser.cpp:34-86 | the programs are exactly the texts whose words are words, by the grammar, of declarations with new names of which one is an interface with methods |
| Compilation.Compile | idl/metadata/metadata_builder.cpp:29-52 | from the text to the block and back: for every program that can be built, the declarations are those of the text, read with the words' own meaning, everything their methods mention is in the table, and each type of the table prints from the metadata as it was parsed; what is no program does not parse with distinct names |
| FormDataMgr.FormDataMgr.AllotFormRecord | form_runtime/services/src/form_data_mgr.cpp:48-75 | a record is created if there is none with the id, and a temporary form is listed if it is not |
| FormDataMgr.FormDataMgr.DeleteFormRecord | form_runtime/services/src/form_data_mgr.cpp:81-92 | the record with the id is gone |
| FormDataMgr.FormDataMgr.AllotFormHostRecord | form_runtime/services/src/form_data_mgr.cpp:102-124 | the form is added to the first host with the token, or to a new one |
| FormDataMgr.FormDataMgr.CheckEnoughForm | form_runtime/services/src/form_data_mgr.cpp:227-253 | the limit that is reached first, walking the user's normal forms in the order of their ids: 512 forms of the user, or 256 that the caller uses |
| FormDataMgr.FormDataMgr.DeleteTempForm | form_runtime/services/src/form_data_mgr.cpp:259-269 | the id is taken off the list of temporary forms; false if it was not there |
| FormDataMgr.FormDataMgr.ModifyFormTempFlg | form_runtime/services/src/form_data_mgr.cpp:302-312 | the record's flag is set; false if there is none |
| FormDataMgr.FormDataMgr.AddFormUserUid | form_runtime/services/src/form_data_mgr.cpp:319-332 | the uid is listed if it was not |
| FormDataMgr.FormDataMgr.DeleteFormUserUid | form_runtime/services/src/form_data_mgr.cpp:339-354 | the uid is taken off the record |
| FormDataMgr.FormDataMgr.DeleteHostRecord | form_runtime/services/src/form_data_mgr.cpp:465-482 | the form is taken off the first host with the token, and an empty host goes |
| FormDataMgr.FormDataMgr.CleanHostRemovedForms | form_runtime/services/src/form_data_mgr.cpp:487-507 | the removed forms are taken off all hosts |
| FormDataMgr.FormDataMgr.HandleHostDied | form_runtime/services/src/form_data_mgr.cpp:512-559 | the host goes, and with it the listed temporary forms it shows, records and all |
| FormDataMgr.FormDataMgr.HandleHostDiedForTempForms | form_runtime/services/src/form_data_mgr.cpp:566-578 | the host's forms are dropped from the list of temporary forms, and returned |
| FormDataMgr.FormDataMgr.CleanRemovedFormRecords | form_runtime/services/src/form_data_mgr.cpp:806-819 | the records of the removed ids are gone |
| FormDataMgr.FormDataMgr.CleanRemovedTempFormRecords | form_runtime/services/src/form_data_mgr.cpp:825-856 | the temporary forms of the bundle and user are gone, from records and list, and returned |
| FormDataMgr.FormDataMgr.FindMatchedFormId | form_runtime/services/src/form_data_mgr.cpp:1035-1051 | a full id stands for itself, a 32-bit id for the least record with that low word, if there is one |
| FormDataMgr.FormDataMgr.ClearHostDataByUId | form_runtime/services/src/form_data_mgr.cpp:1057-1069 | the hosts of the uid are gone |
| FormDataMgr.FormDataMgr.GetNoHostTempForms | form_runtime/services/src/form_data_mgr.cpp:1076-1105 | uid is taken off all temporary forms that list it; those left without a user are grouped by provider, and those that did not list it are the found ones |
| FormDataMgr.FormDataMgr.DeleteFormsByUserId | form_runtime/services/src/form_data_mgr.cpp:1312-1346 | the records of the user are gone, and the temporary ones from the list |
| FormDataMgr.FormDataMgr.GetNoHostInvalidTempForms | form_runtime/services/src/form_data_mgr.cpp:1370-1409 | the caller is taken off the invalid temporary forms, sorted into those without a user, by provider, and the rest |
| FormDataMgr.FormDataMgr.BatchDeleteNoHostTempForms | form_runtime/services/src/form_data_mgr.cpp:1417-1434 | the forms without a user are gone from records and list, and counted |
| FormDataMgr.FormDataMgr.DeleteInvalidTempForms | form_runtime/services/src/form_data_mgr.cpp:1444-1460 | both in one: what is left of records and list, and the forms the caller was taken off |
| FormDataMgr.FormDataMgr.ClearHostDataByInvalidForms | form_runtime/services/src/form_data_mgr.cpp:1468-1492 | the forms are taken off the caller's hosts, and empty hosts go |
| FormDbCache.FormDbCache.SaveFormInfo | form_runtime/services/src/form_db_cache.cpp:67-87 | the cache has the entry under its id, written to the store unless it was there already |
| FormDbCache.FormDbCache.SaveFormInfoNolock | form_runtime/services/src/form_db_cache.cpp:94-113 | the same without the lock |
| FormDbCache.FormDbCache.DeleteFormInfo | form_runtime/services/src/form_db_cache.cpp:120-136 | the entry is gone from the cache and, if storage works, from the store |
| FormDbCache.FormDbCache.DeleteFormInfoByBundleName | form_runtime/services/src/form_db_cache.cpp:143-162 | the entries of the bundle and user whose deletion is stored are gone, and returned |
| FormDbCache.FormDbCache.GetDBRecord | form_runtime/services/src/form_db_cache.cpp:205-216 | the first entry with the id |
| FormDbCache.FormDbCache.UpdateDBRecord | form_runtime/services/src/form_db_cache.cpp:223-227 | the record is saved under the id |
| FormDbCache.FormDbCache.GetNoHostDBForms | form_runtime/services/src/form_db_cache.cpp:235-260 | uid is taken off all entries in the cache, and the store is not touched; forms without a user are grouped by provider |
| FormDbCache.FormDbCache.DeleteDBFormsByUserId | form_runtime/services/src/form_db_cache.cpp:284-301 | the entries of the user whose deletion is stored are gone |
| FormDbCache.FormDbCache.GetNoHostInvalidDBForms | form_runtime/services/src/form_db_cache.cpp:315-355 | the caller is taken off the invalid entries in the cache, and the store is not touched |
| FormDbCache.FormDbCache.BatchDeleteNoHostDBForms | form_runtime/services/src/form_db_cache.cpp:363-392 | the forms without a user are gone from cache, store and records |
| FormDbCache.FormDbCache.DeleteInvalidDBForms | form_runtime/services/src/form_db_cache.cpp:402-427 | all of it in one: what is left of cache, store and records, and the forms the caller was taken off |
| FormSysEvents.FormSysEventReceiver.HandleProviderRemoved | form_runtime/services/src/form_sys_event_receiver.cpp:177-207 | the bundle's forms are gone from cache, store, records, list and hosts |
| FormSysEvents.FormSysEventReceiver.HandleFormHostDataCleared | form_runtime/services/src/form_sys_event_receiver.cpp:273-292 | uid is taken off every form and its hosts go; what becomes of forms without a user |
| FormSysEvents.FormSysEventReceiver.ClearFormDBRecordData | form_runtime/services/src/form_sys_event_receiver.cpp:293-312 | the part on database entries and their records |
| FormSysEvents.FormSysEventReceiver.ClearTempFormRecordData | form_runtime/services/src/form_sys_event_receiver.cpp:313-325 | the part on temporary forms |
| FormSysEvents.FormSysEventReceiver.BatchDeleteNoHostDBForms | form_runtime/services/src/form_sys_event_receiver.cpp:326-369 | forms whose provider refuses list uid again, in cache and store; the others are gone |
| FormSysEvents.FormSysEventReceiver.BatchDeleteNoHostTempForms | form_runtime/services/src/form_sys_event_receiver.cpp:376-400 | forms whose provider refuses list uid again; the others are gone |
| FormSysEvents.FormSysEventReceiver.HandleUserIdRemoved | form_runtime/services/src/form_sys_event_receiver.cpp:543-554 | the user's forms are gone from records, list, cache and store |
| FormMgrAdapter.FormMgrAdapter.AddForm | form_runtime/services/src/form_mgr_adapter.cpp:72-125 | the new state and code for every id, limit and answer of the outside: by id or as a new form |
| FormMgrAdapter.FormMgrAdapter.DeleteForm | form_runtime/services/src/form_mgr_adapter.cpp:133-145 | the matched form is deleted as a temporary or a normal one |
| FormMgrAdapter.FormMgrAdapter.ReleaseForm | form_runtime/services/src/form_mgr_adapter.cpp:154-196 | a temporary form is deleted; a normal one of the caller's is released |
| FormMgrAdapter.FormMgrAdapter.HandleReleaseForm | form_runtime/services/src/form_mgr_adapter.cpp:204-230 | the caller is taken off the record, which goes with its last user |
| FormMgrAdapter.FormMgrAdapter.HandleDeleteForm | form_runtime/services/src/form_mgr_adapter.cpp:238-272 | only the caller's own database form is deleted, then taken off the host |
| FormMgrAdapter.FormMgrAdapter.HandleDeleteTempForm | form_runtime/services/src/form_mgr_adapter.cpp:280-321 | the caller is taken off; without a user the form goes, unless the provider refuses: then the caller is listed again |
| FormMgrAdapter.FormMgrAdapter.HandleDeleteFormCache | form_runtime/services/src/form_mgr_adapter.cpp:330-378 | without a user left the form goes from records, cache and store; otherwise the shorter list is saved |
| FormMgrAdapter.FormMgrAdapter.CastTempForm | form_runtime/services/src/form_mgr_adapter.cpp:544-610 | the form leaves the temporary list and its record, no longer temporary and listing the caller, is saved |
| FormMgrAdapter.FormMgrAdapter.AllotFormById | form_runtime/services/src/form_mgr_adapter.cpp:767-807 | the id completed with the device hash: an existing record of the user's or the caller's is shared, a database entry revived, anything else refused |
| FormMgrAdapter.FormMgrAdapter.AddExistFormRecord | form_runtime/services/src/form_mgr_adapter.cpp:821-872 | the form is added to the host and the caller to the form, in the record and the database |
| FormMgrAdapter.FormMgrAdapter.AllotFormByInfo | form_runtime/services/src/form_mgr_adapter.cpp:881-893 | a generated id, or an error |
| FormMgrAdapter.FormMgrAdapter.AddNewFormRecord | form_runtime/services/src/form_mgr_adapter.cpp:904-941 | host and record are made before the provider is asked; a normal form is saved |
| FormMgrAdapter.FormMgrAdapter.FindMatchedFormIds | form_runtime/services/src/form_mgr_adapter.cpp:1870-1875 | the set of matched ids |
| FormMgrAdapter.FormMgrAdapter.DeleteInvalidForms | form_runtime/services/src/form_mgr_adapter.cpp:1861-1899 | the state after both sweeps and the host clean-up, and the number of distinct forms taken off |
| FormMgrAdapter.MatchUnique | form_runtime/services/src/form_data_mgr.cpp:1035-1051 | an id matches one form only |
| FormRuns.FormMgrService.Perform | form_runtime/services/src/form_mgr_adapter.cpp:72-196 | each step of a run is what the methods of the form manager and the event receiver do |
| FormRuns.RunStaysConsistent | form_runtime/services/src/form_data_mgr.cpp:48-75 | over every run of adding, deleting, releasing, casting, deleting invalid forms, host death, user and bundle removal and data clearing, with fresh generated ids: the list of temporary forms has no duplicates and at most 256 entries, is exactly the records flagged temporary, none of them is in the database, every record is kept under its own id, and nobody is listed twice as a user |
| FormRuns.StepKeeps | form_runtime/services/src/form_mgr_adapter.cpp:72-610 | every single step keeps all of that, whatever provider and storage answer |
| FormRuns.AddKeeps | form_runtime/services/src/form_mgr_adapter.cpp:72-125 | in particular adding a form |
| FormRuns.DeleteTempKeeps | form_runtime/services/src/form_mgr_adapter.cpp:280-321 | deleting a temporary form, also when the provider refuses |
| FormRuns.CastFormKeeps | form_runtime/services/src/form_mgr_adapter.cpp:544-610 | casting a temporary form |
| FormRuns.BundleRemovedKeeps | form_runtime/services/src/form_sys_event_receiver.cpp:177-207 | removing a bundle |
| FormRuns.DataClearedKeeps | form_runtime/services/src/form_sys_event_receiver.cpp:273-400 | clearing a host's data, with refusing providers |
| FormLaws.AddAdmits | form_runtime/services/src/form_mgr_adapter.cpp:72-125 | adding a form makes the caller, and nobody else, a user of the form asked for, exactly if its record is made, or if it is not temporary and belongs to the caller's user or lists the caller already (and its provider, if it must be reached, is); users stay users, every other form's record, entry and hosts stay, and on Ok the host shows the form |
| FormLaws.AddMakes | form_runtime/services/src/form_mgr_adapter.cpp:904-946 | a record that is made lists the caller alone and belongs to its user; a normal form is entered into the database once its provider is reached; when the call is Ok |
| FormLaws.AddShares | form_runtime/services/src/form_mgr_adapter.cpp:821-890 | a record that is shared changes in its users only; when it is saved and when the call is Ok |
| FormLaws.AddOverwrites | form_runtime/services/src/form_mgr_adapter.cpp:904-946 | of a form whose database entry alone is open to the caller, the record stays as it is and is what is saved |
| FormLaws.AddRefused | form_runtime/services/src/form_mgr_adapter.cpp:767-808 | every other call changes nothing and is not Ok |
| FormLaws.LimitTold | form_runtime/services/src/form_data_mgr.cpp:227-253 | a caller is told which limit it met: 256 temporary forms, or, in the order of ids, its own 256 or the user's 512 |
| FormLaws.DeleteTakesOff | form_runtime/services/src/form_mgr_adapter.cpp:133-145 | deleting takes off the caller, who must own the form, and nobody else; the form goes exactly with its last user; every other form stays; exactly when the call is Ok, and which codes mean that nothing changed |
| FormLaws.ReleaseTakesOff | form_runtime/services/src/form_mgr_adapter.cpp:154-196 | releasing leaves the database entry of a normal form alone; with the cached record the caller, and nobody else, is taken off the record, which goes exactly with its last user; exactly when the call is Ok |
| FormLaws.CastMakesNormal | form_runtime/services/src/form_mgr_adapter.cpp:544-610 | casting, by a host that shows the form and a caller with room for it, makes the temporary form a normal one that also lists the caller, in its record, in cache and in store; exactly when it is done and when it is Ok |
| FormLaws.DeleteInvalidTakesOff | form_runtime/services/src/form_mgr_adapter.cpp:1861-1899 | what the sweep takes off and away, on the registries before and after: the caller off exactly its invalid forms, in cache, records and hosts, and a form away exactly with its last user |
| FormLaws.HostDiedTakesTemps | form_runtime/services/src/form_data_mgr.cpp:512-583 | a host that died takes along exactly the temporary forms it showed |
| FormLaws.UserRemovedTakesForms | form_runtime/services/src/form_sys_event_receiver.cpp:543-556 | a removed user takes along exactly its records and the entries that can be deleted |
| FormLaws.BundleRemovedTakesForms | form_runtime/services/src/form_sys_event_receiver.cpp:177-207 | a removed bundle takes along exactly its user's temporary forms of it and the forms whose entries can be deleted, at every host too |
| FormLaws.DataClearedTakesOff | form_runtime/services/src/form_sys_event_receiver.cpp:273-400 | clearing a caller's data takes it off every form that lists it; a form it used alone goes unless the provider refuses, and then everything is as before |
| FormLaws.MatchedIsNamed | form_runtime/services/src/form_data_mgr.cpp:1035-1051 | the form an id stands for: itself, or for 32 bits the least record with these low bits |
| FormLaws.UserOwnsUids | form_runtime/services/src/form_mgr_adapter.cpp:1848-1852 | the user a caller belongs to owns 200000 caller ids |
| FormInvalidForms.DeleteInvalidIsExact | form_runtime/services/src/form_mgr_adapter.cpp:1861-1899 | afterwards no invalid database or temporary form of the caller's user lists the caller; forms that lost their last user are gone from cache, records and list; all other entries and temporary forms are untouched |
| FormInvalidForms.CountIsExact | form_runtime/services/src/form_mgr_adapter.cpp:1893-1897 | the forms counted are exactly those that listed the caller before and do not any more |
| FormInvalidForms.EntryAfter | form_runtime/services/src/form_db_cache.cpp:315-427 | what becomes of each database entry |
| FormInvalidForms.TempAfter | form_runtime/services/src/form_data_mgr.cpp:1370-1460 | what becomes of each temporary form |
| FormStoreSync.RunCovers | form_runtime/services/src/form_db_cache.cpp:67-427 | over every run with storage working, cache and store hold the same unique ids with equal fields, and each cached list of users is a sublist of the stored one |
| FormStoreSync.RunSyncs | form_runtime/services/src/form_db_cache.cpp:67-162 | on runs without the two uid-clearing sweeps cache and store are equal |
| FormStoreSync.RunFromStart | form_runtime/services/src/form_mgr_adapter.cpp:72-610 | all three hold over every run from the empty service: consistency whatever the outside answers, the sublists while storing succeeds, equality without the two sweeps |
| FormStoreSync.InvalidSyncsIff | form_runtime/services/src/form_db_cache.cpp:315-355 | deleting invalid forms keeps cache and store equal exactly when every form the caller is taken off lost its last user |
| FormStoreSync.ClearedSyncsIff | form_runtime/services/src/form_db_cache.cpp:235-260 | clearing a host's data keeps them equal exactly under the same condition |
| FormStoreSync.InvalidParts | form_runtime/services/src/form_db_cache.cpp:315-355 | a run from the empty service with storage working on which cache and store part: one caller adds a form, another adds it by id, and the first deletes its invalid forms |
| FormStoreSync.ClearingParts | form_runtime/services/src/form_db_cache.cpp:235-260 | the same with the first caller's data cleared |
| FormInfoMgr.BundleFormInfo.UpdateStaticFormInfos | form_runtime/services/src/form_info_mgr.cpp:149-179 | the user's storages become one, the loaded forms first, then the dynamic ones in order; nothing on a failed load |
| FormInfoMgr.BundleFormInfo.Remove | form_runtime/services/src/form_info_mgr.cpp:181-193 | the user's storages are gone |
| FormInfoMgr.BundleFormInfo.AddDynamicFormInfo | form_runtime/services/src/form_info_mgr.cpp:195-223 | refused if the user has a form of that name; otherwise appended |
| FormInfoMgr.BundleFormInfo.RemoveDynamicFormInfo | form_runtime/services/src/form_info_mgr.cpp:225-249 | removes the first form with the name if it is dynamic, and refuses otherwise |
| FormInfoMgr.BundleFormInfo.RemoveAllDynamicFormsInfo | form_runtime/services/src/form_info_mgr.cpp:251-274 | the dynamic forms are gone from memory, and nothing is stored |
| FormInfoMgr.BundleFormInfo.UpdateFormInfoStorageLocked | form_runtime/services/src/form_info_mgr.cpp:303-318 | the store has the bundle's storages, or no entry if there are none |
| FormInfoMgr.FormInfoMgr.UpdateStaticFormInfos | form_runtime/services/src/form_info_mgr.cpp:352-381 | a bundle enters the map when a stored reload finds forms |
| FormInfoMgr.FormInfoMgr.Remove | form_runtime/services/src/form_info_mgr.cpp:383-407 | a bundle without storages leaves the map |
| FormInfoMgr.FormInfoMgr.AddDynamicFormInfo | form_runtime/services/src/form_info_mgr.cpp:509-539 | for a bundle not in the map the form is stored but not found in memory |
| FormInfoMgr.FormInfoMgr.RemoveDynamicFormInfo | form_runtime/services/src/form_info_mgr.cpp:541-552 | removes from a known bundle |
| FormInfoMgr.FormInfoMgr.RemoveAllDynamicFormsInfo | form_runtime/services/src/form_info_mgr.cpp:554-564 | clears a known bundle |
| FormInfoRuns.RunConserves | form_runtime/services/src/form_info_mgr.cpp:149-274 | over every run from an empty bundle each user has at most one storage, and its dynamic forms, in order and with distinct names, are exactly those the log says were added and not removed since |
| FormInfoRuns.ReloadIsIdempotent | form_runtime/services/src/form_info_mgr.cpp:149-179 | reloading an unchanged configuration changes nothing, and no reload changes or reorders the other users' storages |
| FormInfoRuns.Perform | form_runtime/services/src/form_info_mgr.cpp:149-274 | each step of a run is what the method of the bundle does to its storages and its stored entry, and no other bundle's entry changes |
| FormInfoRuns.RunStores | form_runtime/services/src/form_info_mgr.cpp:149-318 | over every run with storage working, memory and store agree at the end exactly when the log does not leave the store behind: when no removal of all dynamic forms from a user who had some came after the last other accepted call |
| FormInfoRuns.AddThenClear | form_runtime/services/src/form_info_mgr.cpp:195-274 | the shortest log that leaves the store behind: a form is added and all dynamic forms of the user are removed; the store still has the form |
| FormInfoRuns.ClearingIsNotStored | form_runtime/services/src/form_info_mgr.cpp:251-274 | after removing all dynamic forms they agree only if there was none |
| FormInfoRuns.StoredAfterAdd | form_runtime/services/src/form_info_mgr.cpp:509-539 | what is stored for the bundle is what was stored with the form appended exactly when memory and store were alike before, up to an empty storage of the user; for a bundle that is not in memory it is what adding to the stored storages would have left exactly when those were no more than the user's own storage, empty or with just this form |
| FormInfoRuns.AddTwice | form_runtime/services/src/form_info_mgr.cpp:509-539 | an input for which that fails: two additions to an unknown bundle, for two users, with storage working, and the first form is lost |
| FormInfoRuns.RemoveSeen | form_runtime/services/src/form_info_mgr.cpp:225-249 | a dynamic form can be removed exactly when no static form with its name comes first |
| FormInfoMgrRuns.PerformFor | form_runtime/services/src/form_info_mgr.cpp:352-564 | each step of a run over all bundles is what the manager's methods do, objects made, kept and dropped as they do |
| FormInfoMgrRuns.MgrRunConserves | form_runtime/services/src/form_info_mgr.cpp:352-564 | over every run of the manager from an empty memory, whatever is stored: in every bundle each user has at most one storage, and its dynamic forms, in order and with distinct names, are those that calls on a bundle in memory added and did not remove since |
| FormInfoMgrRuns.AddedUnseen | form_runtime/services/src/form_info_mgr.cpp:509-539 | a form added to a bundle that is not in memory never gets there, and what is stored for the bundle becomes that form alone |
| FormInfoLaws.ReloadLaw | form_runtime/services/src/form_info_mgr.cpp:352-381 | a reload gives the user the forms of the configuration and, behind them, the dynamic ones it had; other users keep theirs; what the store has afterwards, when a bundle enters memory, and the answer |
| FormInfoLaws.AddLaw | form_runtime/services/src/form_info_mgr.cpp:195-223 | a form is added behind those of its user exactly if none of those has both its name and its module; other users keep theirs; the store and the answer |
| FormInfoLaws.RemoveDynamicLaw | form_runtime/services/src/form_info_mgr.cpp:225-249 | the first form of the user with both names is taken out exactly if it is dynamic; the store and the answer |
| FormInfoLaws.RemoveAllLaw | form_runtime/services/src/form_info_mgr.cpp:251-274 | the dynamic forms of the user go, the static ones stay in order, and the store is not written |
| FormInfoLaws.RemoveLaw | form_runtime/services/src/form_info_mgr.cpp:383-407 | all forms of the user go, and the bundle exactly with its last user |
| FormInfoLaws.InfosAreSeen | form_runtime/services/src/form_info_mgr.cpp:282-291 | with one storage a user at most, a user's forms are those of that storage, none without one |
| FormInfoLaws.SplitsByFlag | form_runtime/services/src/form_info_mgr.cpp:160-166 | what is kept of a list, the static or the dynamic forms, is exactly those with the flag, in order |
| FormInfoLaws.RefusedLaw | form_runtime/services/src/form_info_mgr.cpp:352-564 | what is refused changes nothing, and with which code |
| FormInfoLaws.OtherBundlesStay | form_runtime/services/src/form_info_mgr.cpp:352-564 | no call changes another bundle's forms or stored entry |
| FormInfoLaws.RunHasNoEmptyEntry | form_runtime/services/src/form_info_mgr.cpp:303-318 | over every run the store never keeps an entry without storages |

## Left out

- File reading: the source text is a character sequence; the byte 0xFF, an empty file and lengths that are multiples of the read buffer, which the reader treats specially, are not modelled.
- Error messages, line and column numbers, and the dump of the syntax tree.
- Reference counting, allocation failure and command line options.
- `String::Format` yields a null string at 1024 characters and more; printed types and signatures are taken as shorter.
- `Strings` does not tell a null string from an empty one; the metadata builder does.
- The namespace objects in the parser: it keeps the printed name of a namespace, and the trie is modelled by itself in `Namespaces`.
- The parser's interface and method objects are values until they are added; the type objects keep their addresses.
- The emitter works on types as trees; reading them from the metadata's type table is `MetadataDumper`.
- Includes, using declarations, licence text, file names and layout of the emitted C++ text.
- The TypeScript emitter.
- Conversion between 8 and 16 bit strings in parcels is taken as lossless; remote objects are opaque values.
- A map with interfaces as keys: a smart pointer has no hash, so the emitted C++ type does not compile; the statements alone do not show it.
- MetadataShipping.BuildAndShip: says nothing about a block that does not fit, because what the program then reads and writes behind its allocation is undefined.
- RemoteCall.OneWayCallDelivers: says what a one-way call delivers, not when: the transport is one that delivers at once or fails.
- The pool pointer and the size field of the metadata component: 32-bit truncation of the size is not modelled.
- Inter-process calls, the bundle manager, accounts, event reports and permissions: their answers are parameters.
- Timers, and the refresh, visibility and update flags of records and hosts.
- Restarting the service, which loads the cache from the store again.
- The update of a provider (`HandleProviderUpdated`) and re-creating forms after their provider's data was cleared.
- Sweeps over form records name a form by its key in the map, where the source takes the id kept in the record; the two agree in every consistent state (`FormRuns.RunStaysConsistent`).
- The grouping of forms by provider uses a key whose order is really an inequality; here it is an ordinary map.
- Interleaving of threads: every public call is one step.
- The test hooks that add and clear form records directly.
- Loading form information from bundle profiles and its JSON form: a reload is given what it loads.
