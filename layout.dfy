/** The ABI profile: every structure offset the decoder uses, in one place.
    Offsets that scale with the pointer width take it as a parameter; the
    rest are the fixed literals of the Unity Mono build the inspector targets. */
module Layout {
  import opened Memory

  // ---- _MonoClass, relative to the class address ----

  /** Offset of the class's `_MonoImage*` (the `imageOffset` literal 0x40). */
  const ClassImage: int := 0x40
  /** `this_arg`, the embedded _MonoType, sits at 168; its TypeInfo follows three pointers later. */
  const ClassThisArg: int := 168
  function ClassTypeInfo(p: PtrSize): int { ClassThisArg + 3 * p }
  function ClassInstanceSize(p: PtrSize): int { 3 * p + 4 }
  /** The flags word holding inited / size-inited / value-type / enum. */
  function ClassBitFields(p: PtrSize): int { 3 * p + 8 }
  /** The word whose bits 16..18 hold the class kind. */
  function ClassFlagsPackingSize(p: PtrSize): int { 3 * p + 16 }
  function ClassParent(p: PtrSize): int { 3 * p + 24 }
  function ClassNestedIn(p: PtrSize): int { 4 * p + 24 }
  function ClassName(p: PtrSize): int { ClassImage + p }
  function ClassNamespace(p: PtrSize): int { ClassImage + 2 * p }
  function ClassSize(p: PtrSize): int { ClassImage + 7 * p + 24 }
  function ClassRuntimeInfo(p: PtrSize): int { ClassThisArg + 7 * p }
  const ClassFieldCount: int := 0x5C
  const ClassFields: int := 0x60
  const ClassNextClassCache: int := 0xAC
  /** `domain_vtables` inside MonoClassRuntimeInfo. */
  const RuntimeInfoDomainVTables: int := 0x4
  /** The static-data pointer inside a vtable. */
  const VTableStaticData: int := 0xC

  // ---- _MonoClassField ----

  const FieldType: int := 0x0
  const FieldName: int := 0x4
  const FieldOffset: int := 0xC
  function FieldStride(p: PtrSize): int { 4 * p }
  /** Bytes subtracted from an offset declared on a value type. */
  const ValueTypeHeader: int := 8

  // ---- _MonoImage / class cache ----

  const ImageScanBytes: int := 3000
  /** Exclusive bound of the assembly-pointer scan (3000 - 4). */
  const ImageScanLimit: int := 2996
  function ImageClassCache(p: PtrSize): int { 2 * p }
  function ClassCacheSize(p: PtrSize): int { 3 * p }
  function ClassCacheEntries(p: PtrSize): int { 3 * p + 4 }
  function ClassCacheTable(p: PtrSize): int { 3 * p + 8 }

  // ---- _MonoDomain / _MonoAssembly ----

  /** Start of the window searched for the friendly-name slot: 18 pointers,
      3 int32 fields with padding, and 16 bytes more. */
  function DomainNameWindowStart(p: PtrSize): int { 18 * p + (3 * 4 + 4) + 2 * 8 }
  const DomainNameWindow: int := 200
  const RootDomainName: string := "Unity Root Domain"
  /** The friendly-name read is capped at the root-domain name plus its NUL. */
  const RootDomainNameRead: nat := 18
  function AssemblyListBeforeName(p: PtrSize): int { 2 * p }
  function ListNodeNext(p: PtrSize): int { p }
  function AssemblyName(p: PtrSize): int { 2 * p }
  const AssemblyImagePtr: int := 0x40

  // ---- PE/COFF image (Microsoft PE format) ----

  const PeLfanew: int := 0x3C
  /** Optional-header magic: COFF header (lfanew + 4) plus 20. */
  const PeMagic: int := 24
  const PeExportDirectory: int := 0x78
  const Pe32PlusShift: int := 16
  const Pe32PlusMagic: int := 0x020B
  const ExportNumberOfFunctions: int := 0x14
  const ExportNumberOfNames: int := 0x18
  const ExportAddressTable: int := 0x1C
  const ExportNameTable: int := 0x20
  const ExportOrdinalTable: int := 0x24
  const RootDomainSymbol: string := "mono_get_root_domain"

  // ---- `mov rax, [rip + disp32]` in mono_get_root_domain ----

  const MovDisplacement: int := 3
  const MovLength: int := 7
}
