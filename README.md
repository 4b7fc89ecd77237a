# UnitySpy core, modelled in Dafny

UnitySpy reads the managed state of a running Unity game by decoding the
Mono runtime's structures directly from the process's memory. This project
models the decoder's core and proves properties of it:

- **The factory** (`AssemblyImageFactory`) finds `mono_get_root_domain` in
  the export table of the mono module. It decodes that function's
  RIP-relative `mov` to reach the root `_MonoDomain`. It then locates the
  domain's assembly list through the "Unity Root Domain" friendly name and
  walks the list for an assembly by name.
- **The image** (`AssemblyImage`) finds its class cache relative to the
  back-pointer to its assembly. It decodes every class in the cache's hash
  chains, runs `Init` on each class, and indexes the classes by full name.
- **The class** (`TypeDefinition`) decodes its header, flags, class kind,
  name, namespace, size and static vtable. It resolves its `Parent` and
  `NestedIn` links through the image, and computes its nested hierarchy,
  full name, field list and field lookup, and the address of a static
  field.
- **The field** (`FieldDefinition`) decodes its descriptor and computes the
  address its value is read from.

The target process's memory is a `map<int, byte>`. A read that touches an
unmapped byte fails with `ReadFault`, as a remote read of an unreadable page
throws. The target process's pointer size (`Constants.SizeOfPtr`) is a parameter `p` (4 or 8). The export scan's stride, the inspector's own `IntPtr.Size`, is a separate parameter `step`. Every
exception the source throws is an `Error` value in a `Result`.

Files:

- `memory.dfy` (`Memory`): typed little-endian reads and NUL-terminated
  strings.
- `layout.dfy` (`Layout`): every structure offset and constant.
- `type_definition.dfy` (`Types`): the class header, links, hierarchy,
  `Init` and full name.
- `field_definition.dfy` (`Fields`): the field descriptor and value address.
- `type_fields.dfy` (`TypeFields`): field lists, ordering, lookup and static
  values.
- `assembly_image.dfy` (`Images`): the class cache and the `Image` class
  with its identity cache and by-name index.
- `assembly_image_factory.dfy` (`Factory`): the export lookup, the domain,
  the assembly list and `Create`.

A class pointer becomes a class through a `Resolver` (`int -> Result<TypeDef>`).
The image supplies `Images.Resolve`, which is the class decode itself. The
image's identity cache (`Image.byAddress`) is proved to hold only such
decodes, and its index (`Image.byFullName`) to hold only cached classes under
non-generic full names they have (`Image.Valid`). So links resolved through
the cache are the links the functions state. Walks over chains that may be cyclic carry the set of
slots already visited. Where the source would loop forever or overflow its
stack, the model reports `NonTerminating`. A reentrant lazy field list
reports `LazyReentrancy`.

## Model

| member | source | states |
|---|---|---|
| Memory.ReadBytesMapped | src/HackF5.UnitySpy/Detail/MemoryObject.cs:33 | a byte-array read succeeds exactly when every byte is mapped, and returns those bytes in order |
| Memory.Signed | src/HackF5.UnitySpy/Detail/MemoryObject.cs:23 | the two's-complement reading of an unsigned value is in the signed range and congruent to it modulo the width |
| Memory.ReadI32 | src/HackF5.UnitySpy/Detail/MemoryObject.cs:23 | a 32-bit read fails only with a read fault and lies in [-2^31, 2^31) |
| Memory.ReadPtr | src/HackF5.UnitySpy/Detail/MemoryObject.cs:25 | a pointer read fails only with a read fault, and a successful read implies its address is mapped |
| Memory.ReadCStringChars | src/HackF5.UnitySpy/Detail/MemoryObject.cs:27 | a string read is the bytes from its address on, one ASCII character per non-NUL byte: the byte itself below 0x80, '?' for every byte from 0x80 up |
| Types.TypeDef.ClassKindValue | src/HackF5.UnitySpy/Detail/TypeDefinition.cs:87 | the class-kind discriminant is bits 16..18 of the packing word, so it is below 8 |
| Types.TypeDef.Kind | src/HackF5.UnitySpy/Detail/TypeDefinition.cs:87 | the discriminant names a kind exactly when it is between 1 and 6; 1 is a plain class and 6 a pointer |
| Types.FlagsReadOneBitEach | src/HackF5.UnitySpy/Detail/TypeDefinition.cs:130-136 | IsInited, IsSizeInited, IsValueType and IsEnum each depend on exactly one bit of the flags word: bits 0, 1, 2 and 3 |
| Types.DecodeHeader | src/HackF5.UnitySpy/Detail/TypeDefinition.cs:73-92 | the header members are read from their slots (instance size, flags, packing word, field count at 0x5C), and the type info sits at 168 + 3p; only read faults fail |
| Types.DecodeTypeLayout | src/HackF5.UnitySpy/Detail/TypeDefinition.cs:37-92 | a decoded class is placed at its own address, and its header members come from their slots |
| Types.DecodeTypeEmptyName | src/HackF5.UnitySpy/Detail/TypeDefinition.cs:99-111 | the constructor fails with "Empty type name" exactly when the header reads and the name read gives "" |
| Types.DecodeTypeUnnamed | src/HackF5.UnitySpy/Detail/TypeDefinition.cs:99-106 | when the name cannot be read the constructor returns early: name and namespace stay empty, size and vtable stay 0 |
| Types.DecodeTypeNamed | src/HackF5.UnitySpy/Detail/TypeDefinition.cs:101-122 | a named class has a non-empty name; its namespace, size and vtable are read from their slots |
| Types.VTableLayout | src/HackF5.UnitySpy/Detail/TypeDefinition.cs:120-122 | the vtable is 0 when the runtime-info pointer is null, and otherwise the pointer at runtime-info + 4; only read faults fail |
| Types.HierarchyFromIsChain | src/HackF5.UnitySpy/Detail/TypeDefinition.cs:261-272 | a nested hierarchy is a chain of NestedIn links from the class outward, ending at a class with no NestedIn |
| Types.HierarchyFromFewerVisited | src/HackF5.UnitySpy/Detail/TypeDefinition.cs:261-272 | a walk that succeeds does not depend on the slots already visited |
| Types.HierarchyOfNested | src/HackF5.UnitySpy/Detail/TypeDefinition.cs:261-272 | the hierarchy of a nested class is the class followed by the hierarchy of its enclosing class |
| Types.NestedHierarchy | src/HackF5.UnitySpy/Detail/TypeDefinition.cs:261-272 | the while loop yields the hierarchy that `Hierarchy` defines, with the same errors |
| Types.InitFromSteps | src/HackF5.UnitySpy/Detail/TypeDefinition.cs:192-196 | Init resolves NestedIn and initialises it, then resolves Parent and initialises it; the first error wins |
| Types.InitGivesHierarchy | src/HackF5.UnitySpy/Detail/TypeDefinition.cs:192-196 | a class whose Init succeeds has a finite nested hierarchy |
| Types.InitHeadLinks | src/HackF5.UnitySpy/Detail/TypeDefinition.cs:192-196 | after Init, the class's NestedIn and Parent are among the classes Init resolved, and its hierarchy is finite |
| Types.InitResolvesLinks | src/HackF5.UnitySpy/Detail/TypeDefinition.cs:192-196 | the classes Init resolves are closed under NestedIn and Parent, and each has a finite hierarchy |
| Types.InitLinkedResolvesLinks | src/HackF5.UnitySpy/Detail/TypeDefinition.cs:194-195 | `link?.Init()` resolves a list that is closed under NestedIn and Parent |
| Types.Reverse | src/HackF5.UnitySpy/Detail/TypeDefinition.cs:246 | the reversed hierarchy has the same length, with element i taken from position n-1-i |
| Types.TrimEndPlus | src/HackF5.UnitySpy/Detail/TypeDefinition.cs:258 | `TrimEnd('+')` gives a prefix that does not end in '+', and everything it removes is '+' |
| Types.JoinHierarchy | src/HackF5.UnitySpy/Detail/TypeDefinition.cs:244-258 | the StringBuilder loop builds the full name of the hierarchy (`FullNameOf`) |
| Types.GetFullName | src/HackF5.UnitySpy/Detail/TypeDefinition.cs:242-259 | GetFullName yields `FullName`: the hierarchy reversed, joined with '+', prefixed by the outermost namespace |
| Types.FullNameTopLevel | src/HackF5.UnitySpy/Detail/TypeDefinition.cs:242-259 | a top-level class with a name not ending in '+' is named `Namespace.Name`, or just `Name` when the namespace is empty or blank |
| Types.FullNameNested | src/HackF5.UnitySpy/Detail/TypeDefinition.cs:242-272 | a nested class is named by its enclosing class's full name, then '+', then its own name |
| Fields.DecodeField | src/HackF5.UnitySpy/Detail/FieldDefinition.cs:17-24 | a null declaring class is rejected before any read; a field otherwise has its type pointer at +0, its name at +4 and its offset at +0xC |
| Fields.DecodeFieldSucceeds | src/HackF5.UnitySpy/Detail/FieldDefinition.cs:17-24 | a descriptor decodes exactly when the declaring class is given and its three members read |
| Fields.ValueAddress | src/HackF5.UnitySpy/Detail/FieldDefinition.cs:38-42 | the value address is a 32-bit value, congruent to instance + offset, less 8 on a value type |
| Fields.ValueAddressNoWrap | src/HackF5.UnitySpy/Detail/FieldDefinition.cs:38-42 | without wrap-around the value sits at instance + offset (less 8 on a value type) |
| Fields.ValueTypeShift | src/HackF5.UnitySpy/Detail/FieldDefinition.cs:40 | the same offset on a value type reads 8 bytes lower, modulo 2^32, than on a reference type |
| Fields.ValueAddressOfTruncated | src/HackF5.UnitySpy/Detail/FieldDefinition.cs:41 | truncating the instance address to 32 bits first does not move the value |
| TypeFields.NameLeTotal | src/HackF5.UnitySpy/Detail/TypeDefinition.cs:239 | any two names are ordered one way or the other |
| TypeFields.NameLeTransitive | src/HackF5.UnitySpy/Detail/TypeDefinition.cs:239 | the name order is transitive |
| TypeFields.NameLeAntisymmetric | src/HackF5.UnitySpy/Detail/TypeDefinition.cs:239 | two names that are each at most the other are equal |
| TypeFields.SortByName | src/HackF5.UnitySpy/Detail/TypeDefinition.cs:239 | `OrderBy(f => f.Name)` keeps every field: the result is a permutation of its input |
| TypeFields.SortByNameSorted | src/HackF5.UnitySpy/Detail/TypeDefinition.cs:239 | the sorted list is ordered by name |
| TypeFields.SortByNameStable | src/HackF5.UnitySpy/Detail/TypeDefinition.cs:239 | the sort is stable: fields of one name keep their relative order |
| TypeFields.OwnFieldsFrom | src/HackF5.UnitySpy/Detail/TypeDefinition.cs:209-235 | the descriptor walk fails only on a read fault and yields at most fieldCount fields |
| TypeFields.OwnFieldsFromLayout | src/HackF5.UnitySpy/Detail/TypeDefinition.cs:211-234 | own field k is the descriptor at first + k * 4p, is declared on the class, and has a non-null type |
| TypeFields.OwnFieldsDecoded | src/HackF5.UnitySpy/Detail/TypeDefinition.cs:211-234 | every own field is the decode of its descriptor, and its type pointer is non-null |
| TypeFields.OwnFieldsStep | src/HackF5.UnitySpy/Detail/TypeDefinition.cs:211-234 | a descriptor with a non-null type that decodes contributes its field, and the walk goes on |
| TypeFields.OwnFieldsStop | src/HackF5.UnitySpy/Detail/TypeDefinition.cs:214-227 | a null type pointer or a failing decode ends the walk |
| TypeFields.OwnFields | src/HackF5.UnitySpy/Detail/TypeDefinition.cs:209-235 | the descriptor loop yields the fields `OwnFieldsFrom` defines |
| TypeFields.GetFields | src/HackF5.UnitySpy/Detail/TypeDefinition.cs:201-240 | GetFields (own fields, then the parent's, ordered by name) yields `FieldsFrom` |
| TypeFields.FieldsSorted | src/HackF5.UnitySpy/Detail/TypeDefinition.cs:201-240 | every field list is ordered by name |
| TypeFields.FieldsOfEmptyClass | src/HackF5.UnitySpy/Detail/TypeDefinition.cs:203-207 | a class with a null descriptor pointer lists exactly the fields it inherits from its parent |
| TypeFields.FieldsCombine | src/HackF5.UnitySpy/Detail/TypeDefinition.cs:237-239 | a class with descriptors lists exactly its own and its inherited fields (as a multiset); fields of one name keep own-then-inherited order |
| TypeFields.FindField | src/HackF5.UnitySpy/Detail/TypeDefinition.cs:185-190 | a field found is in the list, has the name and (when asked) a declaring class of that full name; a miss means every field of that name has a declaring class with another full name (none when no class is asked) |
| TypeFields.FindFieldFirst | src/HackF5.UnitySpy/Detail/TypeDefinition.cs:185-190 | with a class name, a field found is the first field of that name whose declaring class has that full name: every earlier field of the name has a declaring class with another readable full name; an error is the full-name error of the first field of the name whose declaring class is not passed over |
| TypeFields.FindFieldNone | src/HackF5.UnitySpy/Detail/TypeDefinition.cs:185-190 | when every field of the name has a declaring class with another readable full name, the lookup finds nothing and does not fail |
| TypeFields.FieldsDeclaredOnAncestors | src/HackF5.UnitySpy/Detail/TypeDefinition.cs:201-240 | every field a class lists is declared on the class itself or on a class reached from it by one or more `Parent` links |
| TypeFields.InheritedDeclaredOnAncestors | src/HackF5.UnitySpy/Detail/TypeDefinition.cs:201-240 | every field taken from the parent is declared on a strict ancestor |
| TypeFields.FindFieldByName | src/HackF5.UnitySpy/Detail/TypeDefinition.cs:185-190 | without a class name the lookup is the first field of that name, or nothing |
| TypeFields.OwnFieldShadowsInherited | src/HackF5.UnitySpy/Detail/TypeDefinition.cs:185-240 | a field declared on the class hides inherited fields of the same name: GetField finds the class's own field |
| TypeFields.MissingOwnFieldIsInherited | src/HackF5.UnitySpy/Detail/TypeDefinition.cs:185-240 | a name the class does not declare is looked up among its parent's fields |
| TypeFields.GetStaticValue | src/HackF5.UnitySpy/Detail/TypeDefinition.cs:165-183 | fails with FieldNotFound, NotStatic or IsConstant exactly as the field lookup and its type dictate; passes through the error of the full name, of the field lookup and of the vtable's static-data read; and when the field is found, static and not constant and that slot reads, succeeds with the field's value address from the static data at +0xC |
| Images.ResolveAddressed | src/HackF5.UnitySpy/Detail/TypeDefinition.cs:37-38 | the class decode places every class at the address it was decoded from |
| Images.TypeAt | src/HackF5.UnitySpy/Detail/AssemblyImage.cs:99-109 | the null pointer gives no class; any other address gives its decode, failing exactly when the decode fails |
| Images.LinkedThroughImage | src/HackF5.UnitySpy/Detail/TypeDefinition.cs:198-199 | a link is the class at the pointer in its slot, resolved as GetTypeDefinition(address) does |
| Images.AssemblyOffsetFrom | src/HackF5.UnitySpy/Detail/AssemblyImage.cs:29-38 | the offset found is pointer-aligned and below 2996 |
| Images.AssemblyOffsetFromIsFirst | src/HackF5.UnitySpy/Detail/AssemblyImage.cs:29-38 | the offset is the first aligned slot holding the assembly's address, or 0 when none does |
| Images.FindAssemblyOffset | src/HackF5.UnitySpy/Detail/AssemblyImage.cs:27-38 | the scan loop yields `AssemblyOffset` |
| Images.ChainFrom | src/HackF5.UnitySpy/Detail/AssemblyImage.cs:126-128 | a hash chain lists only non-null class addresses |
| Images.Decoded | src/HackF5.UnitySpy/Detail/AssemblyImage.cs:130-138 | the kept classes are exactly the chain addresses that decode, each keyed to its decode |
| Images.CacheHeader | src/HackF5.UnitySpy/Detail/AssemblyImage.cs:116-119 | the hash-table header reads its size at +3p, its entry count at +3p+4 and its table at +3p+8, and succeeds exactly when all three read |
| Images.ClassCacheCoherent | src/HackF5.UnitySpy/Detail/AssemblyImage.cs:111-143 | every class in the cache sits at a non-null address and is the decode of that address |
| Images.EmptyClassCache | src/HackF5.UnitySpy/Detail/AssemblyImage.cs:121-123 | a hash table with no buckets gives an empty cache |
| Images.KeepFirst | src/HackF5.UnitySpy/Detail/AssemblyImage.cs:132-133 | `GetOrAdd` of a decoded class keeps an existing entry and adds a new one, which is the union with that decode |
| Images.WalkChain | src/HackF5.UnitySpy/Detail/AssemblyImage.cs:125-139 | walking one chain adds the decodes of its classes, or fails as the chain read fails |
| Images.WalkBucket | src/HackF5.UnitySpy/Detail/AssemblyImage.cs:121-139 | one bucket adds the decodes of its chain, or fails as the bucket read fails |
| Images.CreateTypeDefinitions | src/HackF5.UnitySpy/Detail/AssemblyImage.cs:111-143 | the bucket-and-chain walk yields `ClassCache` |
| Images.Image.GetTypeDefinition | src/HackF5.UnitySpy/Detail/AssemblyImage.cs:99-109 | GetTypeDefinition(address) gives TypeAt; a new class is cached under its address, nothing else changes, and the cache stays coherent |
| Images.Image.GetTypeDefinitionByName | src/HackF5.UnitySpy/Detail/AssemblyImage.cs:96-97 | on any valid image, a hit is a cached class whose full name is that non-generic name; on an indexed image, a miss means the name is generic or no cached class has it |
| Images.Image.GetClassDefinition | src/HackF5.UnitySpy/Detail/TypeDefinition.cs:198-199 | the class whose pointer is in the slot, resolved through the cache; only that class can be added |
| Images.Image.InitType | src/HackF5.UnitySpy/Detail/TypeDefinition.cs:192-196 | Init through the image gives `InitFrom`, caches every class it resolves, adds nothing else and keeps the cache coherent |
| Images.Image.InitLinkedType | src/HackF5.UnitySpy/Detail/TypeDefinition.cs:194-195 | `link?.Init()` through the image gives `InitLinked`, with the same cache guarantees |
| Images.Image.InitParent | src/HackF5.UnitySpy/Detail/TypeDefinition.cs:195 | `Parent?.Init()` through the image gives the parent's `InitLinked`, with the same cache guarantees |
| Images.Image.InitAll | src/HackF5.UnitySpy/Detail/AssemblyImage.cs:62-65 | the Init pass succeeds exactly when Init succeeds on every cached class, and a failure is the Init error of a cached class; on success every cached class has its links cached and the cache is the Init closure of the old one (`IsInitClosure`) |
| Images.InitClosureUnique | src/HackF5.UnitySpy/Detail/AssemblyImage.cs:62-65 | the cache after the Init pass is determined by the cache before it, whatever order Init visits the classes in |
| Images.UniqueNamesIndex | src/HackF5.UnitySpy/Detail/AssemblyImage.cs:67-80 | indexing a cache whose full names read and are unique (up to generic names) cannot fail |
| Images.LoadSucceeds | src/HackF5.UnitySpy/Detail/AssemblyImage.cs:23-81 | loading cannot fail when the cache reads, Init accepts every cached class and the Init closure has unique full names; with `LoadImage`'s contract, the load then succeeds |
| Images.InitPassStep | src/HackF5.UnitySpy/Detail/AssemblyImage.cs:62-65 | one class initialised preserves the invariant of the Init pass |
| Images.InitCachedStep | src/HackF5.UnitySpy/Detail/AssemblyImage.cs:62-65 | after one more class is initialised, every class that Init resolved on a class already initialised is still cached at its address |
| Images.CheckFullNames | src/HackF5.UnitySpy/Detail/AssemblyImage.cs:67 | reading every full name succeeds exactly when each reads; a failure is one class's error |
| Images.IndexClasses | src/HackF5.UnitySpy/Detail/AssemblyImage.cs:69-80 | indexing succeeds exactly when no two classes share a non-generic full name, and then indexes exactly those classes under their names; a failure is an unreadable name or a duplicate |
| Images.Image.BuildIndex | src/HackF5.UnitySpy/Detail/AssemblyImage.cs:67-80 | building the index succeeds exactly when the full names are unique, and the index then holds exactly the non-generic classes |
| Images.ResolvedNamesRead | src/HackF5.UnitySpy/Detail/AssemblyImage.cs:62-67 | once Init has run on every cached class, every full name reads |
| Images.ReadImageCache | src/HackF5.UnitySpy/Detail/AssemblyImage.cs:27-60 | the 3000 header bytes are read, the back-pointer found, and the cache two pointers after it walked; every entry is its address's decode |
| Images.LoadImage | src/HackF5.UnitySpy/Detail/AssemblyImage.cs:23-81 | a new image's cache is exactly the Init closure of the cache walk's classes, Init succeeded on each, links are resolved, full names are unique and indexed; a failure is a cache-read error, the Init error of a cached class, or (all Init succeeding) an unreadable full name or a real duplicate among the closure's classes |
| Factory.ExportDirectoryRva | src/HackF5.UnitySpy/AssemblyImageFactory.cs:167-180 | the export-table RVA is read at lfanew + 0x78, or 16 bytes later for a PE32+ magic; only read faults fail |
| Factory.ReadExportTables | src/HackF5.UnitySpy/AssemblyImageFactory.cs:182-184 | the function count, address table and name table come from the export directory at +0x14, +0x1C and +0x20 |
| Factory.ScanExportsAsWritten | src/HackF5.UnitySpy/AssemblyImageFactory.cs:186-199 | the export loop as written yields `ScanAsWritten` |
| Factory.ReadExportNames | src/HackF5.UnitySpy/AssemblyImageFactory.cs:182-184 | the name count, address, name and ordinal tables come from the export directory at +0x18, +0x1C, +0x20 and +0x24 |
| Factory.ExportByNameFinds | src/HackF5.UnitySpy/AssemblyImageFactory.cs:186-199 | the lookup by name returns the address of the first export of that name, through its ordinal |
| Factory.ExportByNameMisses | src/HackF5.UnitySpy/AssemblyImageFactory.cs:186-199 | when every name reads and none matches the lookup gives 0 |
| Factory.FindExportByName | src/HackF5.UnitySpy/AssemblyImageFactory.cs:186-199 | the corrected loop yields `ExportByName` |
| Factory.ExportScanStride | src/HackF5.UnitySpy/AssemblyImageFactory.cs:187-191 | on a 64-bit inspector the scan as written misses an export at name entry 1 that the lookup by name finds |
| Factory.ExportScanOrdinal | src/HackF5.UnitySpy/AssemblyImageFactory.cs:191-195 | the scan as written takes the address at the name's index, not the one the ordinal selects, so the two differ |
| Factory.RootDomainFunctionAsWritten | src/HackF5.UnitySpy/AssemblyImageFactory.cs:162-207 | a result is non-zero; a failure is a read fault or the missing symbol (including an export at 0) |
| Factory.RootDomainFunction | src/HackF5.UnitySpy/AssemblyImageFactory.cs:162-207 | with the lookup by name: a result is non-zero; a failure is a read fault or the missing symbol |
| Factory.RootDomainFunctionIsExport | src/HackF5.UnitySpy/AssemblyImageFactory.cs:162-207 | the function found is the address of the first export named mono_get_root_domain |
| Factory.GetRootDomainFunctionAddress | src/HackF5.UnitySpy/AssemblyImageFactory.cs:162-207 | the method yields `RootDomainFunction`, the corrected lookup by name of the Findings table |
| Factory.RootDomainSlot | src/HackF5.UnitySpy/AssemblyImageFactory.cs:52-57 | the domain slot is the end of the 7-byte mov plus the signed 32-bit displacement read 3 bytes in, so it lies within 2^31 of it |
| Factory.SlotNamesRoot | src/HackF5.UnitySpy/AssemblyImageFactory.cs:109-116 | a slot matches exactly when it holds a non-null pointer to "Unity Root Domain" (read up to 18 bytes) |
| Factory.AssemblyListFrom | src/HackF5.UnitySpy/AssemblyImageFactory.cs:104-123 | the window scan fails only with a read fault or "Couldn't determine assembly list" |
| Factory.AssemblyListFound | src/HackF5.UnitySpy/AssemblyImageFactory.cs:107-120 | the list slot is two pointers before a slot the scan visits in the 200-byte window, and that slot names the root domain |
| Factory.AssemblyListFirst | src/HackF5.UnitySpy/AssemblyImageFactory.cs:107-120 | no slot the scan visits before that one names the root domain |
| Factory.AssemblyListMissing | src/HackF5.UnitySpy/AssemblyImageFactory.cs:107-123 | "Couldn't determine assembly list" means no slot the scan visits in the window names the root domain |
| Factory.AssemblyListNone | src/HackF5.UnitySpy/AssemblyImageFactory.cs:107-123 | when every slot the scan visits in the window reads and none names the root domain, the scan throws "Couldn't determine assembly list" |
| Factory.GetAssemblyListAddress | src/HackF5.UnitySpy/AssemblyImageFactory.cs:98-124 | the scan loop yields `AssemblyList`, so by `AssemblyListFound`, `AssemblyListFirst`, `AssemblyListMissing` and `AssemblyListNone` it returns the slot before the first visited slot naming the root domain, and throws exactly when no visited slot names it |
| Factory.ListNodes | src/HackF5.UnitySpy/AssemblyImageFactory.cs:77-79 | the nodes of the assembly list are non-null |
| Factory.FindAssembly | src/HackF5.UnitySpy/AssemblyImageFactory.cs:77-95 | the walk fails only with a read fault, a cycle, or "Unable to find assembly" for that name |
| Factory.FindAssemblyMatches | src/HackF5.UnitySpy/AssemblyImageFactory.cs:77-92 | a node found is non-null and points to an assembly with the requested name |
| Factory.FindAssemblyFirst | src/HackF5.UnitySpy/AssemblyImageFactory.cs:77-92 | the node found is the first match: it is reached from the head along `next` pointers, and every node before it holds a readable assembly of another name |
| Factory.FindAssemblyMissing | src/HackF5.UnitySpy/AssemblyImageFactory.cs:77-95 | an assembly reported missing is on no node of the list: every node's assembly has another name |
| Factory.AssemblyInList | src/HackF5.UnitySpy/AssemblyImageFactory.cs:70-95 | the search from the list slot fails only with a read fault, an empty list ("Wrong starting point"), a cycle, or "Unable to find assembly" for that name |
| Factory.AssemblyInListFound | src/HackF5.UnitySpy/AssemblyImageFactory.cs:70-92 | the assembly found is one a list node points to, has the name, and the image is the pointer at assembly + 0x40 |
| Factory.WalkAssemblies | src/HackF5.UnitySpy/AssemblyImageFactory.cs:77-95 | the list loop yields `FindAssembly` |
| Factory.FindInList | src/HackF5.UnitySpy/AssemblyImageFactory.cs:70-95 | the head read, the empty-list check and the walk yield `AssemblyInList` |
| Factory.LocateAssembly | src/HackF5.UnitySpy/AssemblyImageFactory.cs:64-95 | the reads of GetAssemblyImage before the image is built yield `AssemblyImageAddress` |
| Factory.GetAssemblyImage | src/HackF5.UnitySpy/AssemblyImageFactory.cs:64-96 | either the search fails with its error, or the image of the assembly found is loaded with its cache the Init closure (`Loaded`), or fails for a reason `LoadFailure` names |
| Factory.RootDomain | src/HackF5.UnitySpy/AssemblyImageFactory.cs:43-59 | no mono module gives "Couldn't find mono module"; any other failure is a read fault or the missing symbol |
| Factory.Create | src/HackF5.UnitySpy/AssemblyImageFactory.cs:34-62 | a failure to reach the root domain is reported as is; otherwise the result is GetAssemblyImage's for that domain, so a loaded image's cache is the Init closure of the assembly's class cache |

## Left out

- Process access is not part of this model. This covers `ProcessFacade`, the OS reads behind it, and the module dump. Memory is a map, and a module dump is the module's bytes read from it. A string read of a null pointer is a read at address 0. `ProcessFacade` is not part of this model, so its string decoding is inferred from the names of `ReadAsciiString` and `ToAsciiString` and from the `Encoding.ASCII` use at AssemblyImageFactory.cs:168: each byte from 0x80 up decodes to '?'.
- The Windows platform check of `Create` (AssemblyImageFactory.cs:36-41) is left out because it depends on the host OS.
- `GetMonoModule` (AssemblyImageFactory.cs:127-160) enumerates modules through the Win32 API and matches file names with a regular expression. It is modelled by an `Option<ModuleInfo>` parameter of `Create`.
- Reads whose values are never used are left out. They can only add failures:
  - the PE signature, machine type and optional-header size (AssemblyImageFactory.cs:168-174);
  - the domain bytes in `GetAssemblyImage` (AssemblyImageFactory.cs:67-68);
  - `castClass`, `superTypes`, `idepth`, `rank`, `minAlign`, `flageBytes`, `imageAddress`, `flags2`, `flags`, `typeToken` and `vtableSize` in the class constructor;
  - the header locals of the image constructor (AssemblyImage.cs:40-52).
  The model therefore succeeds in the rare layouts where only such a read would fault.
- `TypeInfo` is not part of this model: field types, `IsStatic`, `IsConstant`, `GetClass` and reading a value of a given type. The `GetClass` call in the descriptor loop (TypeDefinition.cs:229) is left out.
- TypeFields.GetStaticValue: returns the address of the field's value rather than the value, and takes "is static" and "is constant" as predicates over the type-info pointer, because reading and classifying a value is `TypeInfo`'s work.
- TypeFields.NameLe: is ordinal (character-code) order, not the culture-sensitive comparer `OrderBy` uses by default, because culture collation tables are outside any model here.
- The `ConcurrentDictionary` and `Lazy<T>` memoisation of fields, full names, links and the field cache (TypeDefinition.cs:24-35, 185-190) is not modelled as state. Their values are fixed functions of memory, except for the image's identity cache, which is state of `Images.Image`. Thread safety is left out with them.
- The indexers `this[string]` (TypeDefinition.cs:160, AssemblyImage.cs:92) are left out. They are `dynamic` wrappers over `GetStaticValue` and `GetTypeDefinition`.
- Images.Image.InitAll: visits the cached classes in an unspecified order (`Memory.Pick`), not in the hash table's enumeration order, because that order is not observable in the model.
- Factory.ScanExportsAsWritten: does not model the 32-bit overflow of `numberOfFunctions * IntPtr.Size`.
- Images.CreateTypeDefinitions: does not model the wrap-around of the `uint` bucket index for tables of more than 2^29 buckets.
- Factory.SlotNamesRoot: reads the friendly name up to its terminator within 18 bytes. `ReadAsciiString(address, 18)` reads all 18 bytes, so the model does not fail on an unmapped byte after the terminator.
- Factory.FindAssembly: reports `NonTerminating` on a cyclic assembly list, where the source loops forever.
- Images.ChainFrom, Images.WalkChain and Images.CreateTypeDefinitions: report `NonTerminating` on a cyclic hash chain, where the chain loop (AssemblyImage.cs:126-128) runs forever.
- Factory.GetRootDomainFunctionAddress: computes the corrected lookup by name (`RootDomainFunction`) of the Findings table, not the scan as written, which is `RootDomainFunctionAsWritten` over `ScanExportsAsWritten`.
- Fields.DecodeField: takes the descriptor address as an unbounded integer. The constructor's `uint` parameter truncates the `long` address computed at TypeDefinition.cs:222 to 32 bits, and that truncation is not modelled.
- Types.NestedHierarchy and Types.InitFrom: report `NonTerminating` where the source loops forever or exhausts its stack.
- TypeFields.FieldsFrom: reports `LazyReentrancy` where a parent cycle re-enters a lazy field list.
- Factory.Create: uses the corrected export lookup `RootDomainFunction` (see Findings). The scan as written is kept as `ScanAsWritten`.

## Findings

| source | as written | input that shows it | evidently intended | confidence | as-written member | corrected member |
|---|---|---|---|---|---|---|
| src/HackF5.UnitySpy/AssemblyImageFactory.cs:187-191 | the byte index into the 4-byte name table advances by `IntPtr.Size`, so a 64-bit inspector compares only entries 0, 2, 4, … | two exported names where "mono_get_root_domain" is entry 1 and entries 0 and 2 are other names: the scan ends with 0 and throws "Failed to find" | compare every name entry (stride 4) | not executed | Factory.ExportScanStride | Factory.ExportByNameFinds |
| src/HackF5.UnitySpy/AssemblyImageFactory.cs:191-195 | the address is read from the address table at the name's own index, bypassing the ordinal table | name entry 0 is "mono_get_root_domain" and its ordinal is 1, with address entries 0 and 1 different: the scan returns base + address[0] instead of base + address[1] | take the address at the export's ordinal | not executed | Factory.ExportScanOrdinal | Factory.RootDomainFunctionIsExport |
