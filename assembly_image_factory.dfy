/** `AssemblyImageFactory`: from the mono module of a Unity process to the
    image of one of its assemblies. The module's export table gives
    `mono_get_root_domain`, whose single RIP-relative `mov` names the slot
    holding the root `_MonoDomain`; the domain's friendly name locates its
    assembly list, and the list is walked for the assembly by name. */
module Factory {
  import opened Memory
  import opened Layout
  import opened Types
  import opened Images

  // ---- the export directory of the mono module (Microsoft PE format) ----

  /** The data-directory entry holding the export-table RVA: the PE32+
      optional header is 16 bytes longer before its data directories. */
  function ExportEntry(lfanew: int, magic: int): (r: int)
    ensures magic == Pe32PlusMagic ==> r == lfanew + PeExportDirectory + Pe32PlusShift
    ensures magic != Pe32PlusMagic ==> r == lfanew + PeExportDirectory
  {
    if magic == Pe32PlusMagic then lfanew + PeExportDirectory + Pe32PlusShift else lfanew + PeExportDirectory
  }

  /** The export-directory RVA of a module dump: lfanew at 0x3C, the
      optional-header magic 24 bytes after it, then the export entry. */
  function ExportDirectoryRva(d: Mem): (r: Result<int>)
    ensures r.Err? ==> r.error.ReadFault?
    ensures r.Ok? ==>
      && ReadI32(d, PeLfanew).Ok? && ReadU16(d, ReadI32(d, PeLfanew).value + PeMagic).Ok?
      && ReadI32(d, ExportEntry(ReadI32(d, PeLfanew).value, ReadU16(d, ReadI32(d, PeLfanew).value + PeMagic).value)) == r
  {
    var lfanew :- ReadI32(d, PeLfanew);
    var magic :- ReadU16(d, lfanew + PeMagic);
    ReadI32(d, ExportEntry(lfanew, magic))
  }

  /** The three export-directory fields the scan reads. */
  datatype ExportTables = ExportTables(numberOfFunctions: int, addressTable: int, nameTable: int)

  function ReadExportTables(d: Mem, dir: int): (r: Result<ExportTables>)
    ensures r.Err? ==> r.error.ReadFault?
    ensures r.Ok? ==>
      && ReadI32(d, dir + ExportNumberOfFunctions) == Ok(r.value.numberOfFunctions)
      && ReadI32(d, dir + ExportAddressTable) == Ok(r.value.addressTable)
      && ReadI32(d, dir + ExportNameTable) == Ok(r.value.nameTable)
  {
    var count :- ReadI32(d, dir + ExportNumberOfFunctions);
    var addresses :- ReadI32(d, dir + ExportAddressTable);
    var names :- ReadI32(d, dir + ExportNameTable);
    Ok(ExportTables(count, addresses, names))
  }

  /** The export scan as the factory writes it: a byte index into both
      tables that advances by the inspector's own pointer size `step` for
      numberOfFunctions steps; the name at that index is compared, and the
      address at the same index taken. 0 (IntPtr.Zero) when nothing matches. */
  function ScanAsWritten(d: Mem, base: int, t: ExportTables, step: PtrSize, i: nat): (r: Result<int>)
    ensures r.Err? ==> r.error.ReadFault?
    decreases t.numberOfFunctions * step - i
  {
    if i >= t.numberOfFunctions * step then Ok(0)
    else
      var nameRva :- ReadI32(d, t.nameTable + i);
      var name :- ReadString(d, nameRva);
      if name == RootDomainSymbol then
        var rva :- ReadI32(d, t.addressTable + i);
        Ok(base + rva)
      else
        ScanAsWritten(d, base, t, step, i + step)
  }

  /** The loop of `GetRootDomainFunctionAddress` as written. */
  method ScanExportsAsWritten(d: Mem, base: int, t: ExportTables, step: PtrSize) returns (r: Result<int>)
    ensures r == ScanAsWritten(d, base, t, step, 0)
  {
    var bound := t.numberOfFunctions * step;
    var i: nat := 0;
    while i < bound
      invariant ScanAsWritten(d, base, t, step, i) == ScanAsWritten(d, base, t, step, 0)
      decreases bound - i
    {
      var nameRva :- ReadI32(d, t.nameTable + i);
      var name :- ReadString(d, nameRva);
      if name == RootDomainSymbol {
        var rva :- ReadI32(d, t.addressTable + i);
        return Ok(base + rva);
      }
      i := i + step;
    }
    return Ok(0);
  }

  /** The export-directory fields a lookup by name needs: the name-pointer
      count and the ordinal table besides the two tables above. */
  datatype ExportNames = ExportNames(numberOfNames: int, addressTable: int, nameTable: int, ordinalTable: int)

  function ReadExportNames(d: Mem, dir: int): (r: Result<ExportNames>)
    ensures r.Err? ==> r.error.ReadFault?
    ensures r.Ok? ==>
      && ReadI32(d, dir + ExportNumberOfNames) == Ok(r.value.numberOfNames)
      && ReadI32(d, dir + ExportAddressTable) == Ok(r.value.addressTable)
      && ReadI32(d, dir + ExportNameTable) == Ok(r.value.nameTable)
      && ReadI32(d, dir + ExportOrdinalTable) == Ok(r.value.ordinalTable)
  {
    var count :- ReadI32(d, dir + ExportNumberOfNames);
    var addresses :- ReadI32(d, dir + ExportAddressTable);
    var names :- ReadI32(d, dir + ExportNameTable);
    var ordinals :- ReadI32(d, dir + ExportOrdinalTable);
    Ok(ExportNames(count, addresses, names, ordinals))
  }

  /** The name of export k: the 4-byte name RVA at entry k of the name table. */
  function NameAt(d: Mem, n: ExportNames, k: int): (r: Result<string>)
    ensures r.Err? ==> r.error.ReadFault?
  {
    var rva :- ReadI32(d, n.nameTable + 4 * k);
    ReadString(d, rva)
  }

  /** The address of export k: its 2-byte ordinal indexes the 4-byte address
      table. */
  function ExportAddress(d: Mem, base: int, n: ExportNames, k: int): (r: Result<int>)
    ensures r.Err? ==> r.error.ReadFault?
  {
    var ordinal :- ReadU16(d, n.ordinalTable + 2 * k);
    var rva :- ReadI32(d, n.addressTable + 4 * ordinal);
    Ok(base + rva)
  }

  /** The lookup by name the export table is laid out for: name entries k,
      k + 1, … below numberOfNames; 0 when nothing matches. */
  function ExportByName(d: Mem, base: int, n: ExportNames, k: nat): (r: Result<int>)
    ensures r.Err? ==> r.error.ReadFault?
    decreases n.numberOfNames - k
  {
    if k >= n.numberOfNames then Ok(0)
    else
      var name :- NameAt(d, n, k);
      if name == RootDomainSymbol then ExportAddress(d, base, n, k)
      else ExportByName(d, base, n, k + 1)
  }

  /** The lookup finds the first export of that name. */
  lemma {:induction false} ExportByNameFinds(d: Mem, base: int, n: ExportNames, k: nat, j: nat)
    requires k <= j < n.numberOfNames
    requires NameAt(d, n, j) == Ok(RootDomainSymbol)
    requires forall i | k <= i < j :: NameAt(d, n, i).Ok? && NameAt(d, n, i).value != RootDomainSymbol
    ensures ExportByName(d, base, n, k) == ExportAddress(d, base, n, j)
    decreases j - k
  {
    if k < j {
      ExportByNameFinds(d, base, n, k + 1, j);
    }
  }

  /** The lookup reports 0 when every name reads and none matches. */
  lemma {:induction false} ExportByNameMisses(d: Mem, base: int, n: ExportNames, k: nat)
    requires forall i | k <= i < n.numberOfNames :: NameAt(d, n, i).Ok? && NameAt(d, n, i).value != RootDomainSymbol
    ensures ExportByName(d, base, n, k) == Ok(0)
    decreases n.numberOfNames - k
  {
    if k < n.numberOfNames {
      ExportByNameMisses(d, base, n, k + 1);
    }
  }

  /** The corrected export loop. */
  method FindExportByName(d: Mem, base: int, n: ExportNames) returns (r: Result<int>)
    ensures r == ExportByName(d, base, n, 0)
  {
    var k: nat := 0;
    while k < n.numberOfNames
      invariant ExportByName(d, base, n, k) == ExportByName(d, base, n, 0)
      decreases n.numberOfNames - k
    {
      var name :- NameAt(d, n, k);
      if name == RootDomainSymbol {
        return ExportAddress(d, base, n, k);
      }
      k := k + 1;
    }
    return Ok(0);
  }

  /** On a 64-bit inspector the scan as written reads name entries 0, 2, 4,
      … only: an export whose name is entry 1 of a two-name table is missed. */
  lemma ExportScanStride(d: Mem, base: int, t: ExportTables, n: ExportNames, r0: int, r2: int)
    requires t.numberOfFunctions == 2 && n.numberOfNames == 2
    requires t.nameTable == n.nameTable && t.addressTable == n.addressTable
    requires ReadI32(d, t.nameTable) == Ok(r0) && ReadString(d, r0).Ok? && ReadString(d, r0).value != RootDomainSymbol
    requires ReadI32(d, t.nameTable + 8) == Ok(r2) && ReadString(d, r2).Ok? && ReadString(d, r2).value != RootDomainSymbol
    requires NameAt(d, n, 1) == Ok(RootDomainSymbol)
    ensures ScanAsWritten(d, base, t, 8, 0) == Ok(0)
    ensures ExportByName(d, base, n, 0) == ExportAddress(d, base, n, 1)
  {
    assert ScanAsWritten(d, base, t, 8, 16) == Ok(0);
    assert NameAt(d, n, 0) == ReadString(d, r0);
    ExportByNameFinds(d, base, n, 0, 1);
  }

  /** The scan as written takes the address at the name's own index; the
      address of a named export is the one its ordinal selects. */
  lemma ExportScanOrdinal(d: Mem, base: int, t: ExportTables, n: ExportNames, a0: int, a1: int)
    requires t.numberOfFunctions >= 1 && n.numberOfNames >= 1
    requires t.nameTable == n.nameTable && t.addressTable == n.addressTable
    requires NameAt(d, n, 0) == Ok(RootDomainSymbol)
    requires ReadU16(d, n.ordinalTable) == Ok(1)
    requires ReadI32(d, n.addressTable) == Ok(a0) && ReadI32(d, n.addressTable + 4) == Ok(a1) && a0 != a1
    ensures ScanAsWritten(d, base, t, 4, 0) == Ok(base + a0)
    ensures ExportByName(d, base, n, 0) == Ok(base + a1)
    ensures ScanAsWritten(d, base, t, 4, 0) != ExportByName(d, base, n, 0)
  {
    assert ExportAddress(d, base, n, 0) == Ok(base + a1);
  }

  /** `GetRootDomainFunctionAddress` as written: a missing export, or one at
      address 0, fails. */
  function RootDomainFunctionAsWritten(d: Mem, base: int, step: PtrSize): (r: Result<int>)
    ensures r.Ok? ==> r.value != 0
    ensures r.Err? ==> r.error.ReadFault? || r.error == SymbolNotFound
  {
    var dir :- ExportDirectoryRva(d);
    var t :- ReadExportTables(d, dir);
    var address :- ScanAsWritten(d, base, t, step, 0);
    if address == 0 then Err(SymbolNotFound) else Ok(address)
  }

  /** `GetRootDomainFunctionAddress` with the lookup by name. */
  function RootDomainFunction(d: Mem, base: int): (r: Result<int>)
    ensures r.Ok? ==> r.value != 0
    ensures r.Err? ==> r.error.ReadFault? || r.error == SymbolNotFound
  {
    var dir :- ExportDirectoryRva(d);
    var n :- ReadExportNames(d, dir);
    var address :- ExportByName(d, base, n, 0);
    if address == 0 then Err(SymbolNotFound) else Ok(address)
  }

  /** A found export is the address of the first export named
      `mono_get_root_domain`. */
  lemma RootDomainFunctionIsExport(d: Mem, base: int, n: ExportNames, j: nat)
    requires ExportDirectoryRva(d).Ok? && ReadExportNames(d, ExportDirectoryRva(d).value) == Ok(n)
    requires j < n.numberOfNames && NameAt(d, n, j) == Ok(RootDomainSymbol)
    requires forall i | 0 <= i < j :: NameAt(d, n, i).Ok? && NameAt(d, n, i).value != RootDomainSymbol
    requires ExportAddress(d, base, n, j).Ok? && ExportAddress(d, base, n, j).value != 0
    ensures RootDomainFunction(d, base) == ExportAddress(d, base, n, j)
  {
    ExportByNameFinds(d, base, n, 0, j);
  }

  method GetRootDomainFunctionAddress(d: Mem, base: int) returns (r: Result<int>)
    ensures r == RootDomainFunction(d, base)
  {
    var dir :- ExportDirectoryRva(d);
    var n :- ReadExportNames(d, dir);
    var address :- FindExportByName(d, base, n);
    if address == 0 {
      return Err(SymbolNotFound);
    }
    return Ok(address);
  }

  // ---- the root domain ----

  /** The slot `mov rax, [rip + disp32]` reads: the displacement sits 3 bytes
      into the 7-byte instruction and is relative to its end. */
  function RootDomainSlot(m: Mem, fn: int): (r: Result<int>)
    ensures r.Err? ==> r.error.ReadFault?
    ensures r.Ok? ==> ReadI32(m, fn + MovDisplacement) == Ok(r.value - (fn + MovLength))
    ensures r.Ok? ==> fn + MovLength - 0x8000_0000 <= r.value < fn + MovLength + 0x8000_0000
  {
    var disp :- ReadI32(m, fn + MovDisplacement);
    Ok(fn + MovLength + disp)
  }

  // ---- the assembly list of the domain ----

  /** The slot holds a pointer to the root domain's friendly name. */
  predicate RootNameAt(m: Mem, p: PtrSize, slot: int) {
    && ReadPtr(m, p, slot).Ok? && ReadPtr(m, p, slot).value != 0
    && ReadCString(m, ReadPtr(m, p, slot).value, RootDomainNameRead) == Ok(RootDomainName)
  }

  function WindowEnd(p: PtrSize, domain: int): int {
    domain + DomainNameWindowStart(p) + DomainNameWindow
  }

  /** The test applied to one slot of the window: a non-null pointer to
      the 18 bytes "Unity Root Domain" and its terminator. */
  function SlotNamesRoot(m: Mem, p: PtrSize, a: int): (r: Result<bool>)
    ensures r.Ok? ==> (r.value <==> RootNameAt(m, p, a))
    ensures r.Err? ==> r.error.ReadFault?
  {
    var q :- ReadPtr(m, p, a);
    if q == 0 then Ok(false)
    else
      var name :- ReadCString(m, q, RootDomainNameRead);
      Ok(name == RootDomainName)
  }

  /** The window scan from slot a: the first slot naming "Unity Root
      Domain" gives the assembly-list slot two pointers before it. */
  function AssemblyListFrom(m: Mem, p: PtrSize, domain: int, a: int): (r: Result<int>)
    ensures r.Err? ==> r.error.ReadFault? || r.error == AssemblyListNotFound
    decreases WindowEnd(p, domain) - a
  {
    if a >= WindowEnd(p, domain) then Err(AssemblyListNotFound)
    else
      var hit :- SlotNamesRoot(m, p, a);
      if hit then Ok(a - AssemblyListBeforeName(p))
      else AssemblyListFrom(m, p, domain, a + p)
  }

  function AssemblyList(m: Mem, p: PtrSize, domain: int): Result<int> {
    AssemblyListFrom(m, p, domain, domain + DomainNameWindowStart(p))
  }

  /** A slot found names the root domain, inside the window. */
  lemma {:induction false} AssemblyListFound(m: Mem, p: PtrSize, domain: int, a: int, x: int)
    requires AssemblyListFrom(m, p, domain, a) == Ok(x)
    ensures RootNameAt(m, p, x + AssemblyListBeforeName(p))
    ensures a <= x + AssemblyListBeforeName(p) < WindowEnd(p, domain)
    ensures OnGrid(p, a, x + AssemblyListBeforeName(p))
    decreases WindowEnd(p, domain) - a
  {
    if SlotNamesRoot(m, p, a) != Ok(true) {
      AssemblyListFound(m, p, domain, a + p, x);
    }
  }

  /** Slot s is one the scan from a visits: a, a + p, a + 2p, … */
  predicate OnGrid(p: PtrSize, a: int, s: int)
    decreases s - a
  {
    s == a || (s >= a + p && OnGrid(p, a + p, s))
  }

  /** No slot the scan visits before the one found names the root domain. */
  lemma {:induction false} AssemblyListFirst(m: Mem, p: PtrSize, domain: int, a: int, x: int, s: int)
    requires AssemblyListFrom(m, p, domain, a) == Ok(x)
    requires OnGrid(p, a, s) && s < x + AssemblyListBeforeName(p)
    ensures !RootNameAt(m, p, s)
    decreases s - a
  {
    if s != a {
      assert AssemblyListFrom(m, p, domain, a + p) == Ok(x);
      AssemblyListFirst(m, p, domain, a + p, x, s);
    }
  }

  /** "Couldn't determine assembly list" means no slot the scan visits in
      the window names the root domain. */
  lemma {:induction false} AssemblyListMissing(m: Mem, p: PtrSize, domain: int, a: int, s: int)
    requires AssemblyListFrom(m, p, domain, a) == Err(AssemblyListNotFound)
    requires OnGrid(p, a, s) && s < WindowEnd(p, domain)
    ensures !RootNameAt(m, p, s)
    decreases s - a
  {
    if s != a {
      AssemblyListMissing(m, p, domain, a + p, s);
    }
  }

  /** Conversely, when every slot the scan visits in the window reads and
      none names the root domain, the scan fails with "Couldn't determine
      assembly list". */
  lemma {:induction false} AssemblyListNone(m: Mem, p: PtrSize, domain: int, a: int)
    requires forall s | OnGrid(p, a, s) && s < WindowEnd(p, domain) :: SlotNamesRoot(m, p, s) == Ok(false)
    ensures AssemblyListFrom(m, p, domain, a) == Err(AssemblyListNotFound)
    decreases WindowEnd(p, domain) - a
  {
    if a < WindowEnd(p, domain) {
      assert OnGrid(p, a, a);
      forall s | OnGrid(p, a + p, s) && s < WindowEnd(p, domain)
        ensures SlotNamesRoot(m, p, s) == Ok(false)
      {
        GridStep(p, a, s);
      }
      AssemblyListNone(m, p, domain, a + p);
    }
  }

  /** A slot the scan from a + p visits is one the scan from a visits. */
  lemma GridStep(p: PtrSize, a: int, s: int)
    requires OnGrid(p, a + p, s)
    ensures OnGrid(p, a, s)
  {
    assert s >= a + p by {
      GridAbove(p, a + p, s);
    }
  }

  lemma {:induction false} GridAbove(p: PtrSize, a: int, s: int)
    requires OnGrid(p, a, s)
    ensures s >= a
    decreases s - a
  {
    if s != a {
      GridAbove(p, a + p, s);
    }
  }

  /** `GetAssemblyListAddress`. */
  method GetAssemblyListAddress(m: Mem, p: PtrSize, domain: int) returns (r: Result<int>)
    ensures r == AssemblyList(m, p, domain)
  {
    var a := domain + DomainNameWindowStart(p);
    while a < WindowEnd(p, domain)
      invariant AssemblyListFrom(m, p, domain, a) == AssemblyList(m, p, domain)
      decreases WindowEnd(p, domain) - a
    {
      var hit :- SlotNamesRoot(m, p, a);
      if hit {
        return Ok(a - AssemblyListBeforeName(p));
      }
      a := a + p;
    }
    return Err(AssemblyListNotFound);
  }

  // ---- the assembly list walk ----

  /** The `_MonoAssembly` a list node points to, and its name. */
  function AssemblyAt(m: Mem, p: PtrSize, node: int): (r: Result<(int, string)>)
    ensures r.Err? ==> r.error.ReadFault?
  {
    var assembly :- ReadPtr(m, p, node);
    var nameAddress :- ReadPtr(m, p, assembly + AssemblyName(p));
    var name :- ReadString(m, nameAddress);
    Ok((assembly, name))
  }

  /** The nodes of the list from `node` until a null `next`; a node met a
      second time means the walk never ends. */
  function ListNodes(m: Mem, p: PtrSize, node: int, visited: set<int>): (r: Result<seq<int>>)
    ensures r.Ok? ==> 0 !in r.value
    decreases m.Keys - visited
  {
    if node == 0 then Ok([])
    else if node in visited then Err(NonTerminating)
    else if node !in m then Err(ReadFault(node))
    else
      var next :- ReadPtr(m, p, node + ListNodeNext(p));
      var rest :- ListNodes(m, p, next, visited + {node});
      Ok([node] + rest)
  }

  /** The walk of `GetAssemblyImage`: the node and the assembly of the first
      list entry whose assembly has the requested name. */
  function FindAssembly(m: Mem, p: PtrSize, name: string, node: int, visited: set<int>): (r: Result<(int, int)>)
    ensures r.Err? ==> r.error.ReadFault? || r.error == NonTerminating || r.error == AssemblyNotFound(name)
    decreases m.Keys - visited
  {
    if node == 0 then Err(AssemblyNotFound(name))
    else if node in visited then Err(NonTerminating)
    else
      var entry :- AssemblyAt(m, p, node);
      if entry.1 == name then Ok((node, entry.0))
      else
        var next :- ReadPtr(m, p, node + ListNodeNext(p));
        FindAssembly(m, p, name, next, visited + {node})
  }

  /** A node found is a non-null node whose assembly has the requested name. */
  lemma {:induction false} FindAssemblyMatches(m: Mem, p: PtrSize, name: string, node: int, visited: set<int>)
    requires FindAssembly(m, p, name, node, visited).Ok?
    ensures var found := FindAssembly(m, p, name, node, visited).value;
      found.0 != 0 && AssemblyAt(m, p, found.0) == Ok((found.1, name))
    decreases m.Keys - visited
  {
    var entry := AssemblyAt(m, p, node).value;
    if entry.1 != name {
      FindAssemblyMatches(m, p, name, ReadPtr(m, p, node + ListNodeNext(p)).value, visited + {node});
    }
  }

  /** Each node's `next` pointer is the node after it. */
  predicate ListPath(m: Mem, p: PtrSize, path: seq<int>) {
    forall i | 0 <= i < |path| - 1 :: ReadPtr(m, p, path[i] + ListNodeNext(p)) == Ok(path[i + 1])
  }

  /** Every node of the path but the last holds a readable assembly whose
      name is not `name`. */
  predicate PassesBy(m: Mem, p: PtrSize, name: string, path: seq<int>) {
    forall j | 0 <= j < |path| - 1 :: AssemblyAt(m, p, path[j]).Ok? && AssemblyAt(m, p, path[j]).value.1 != name
  }

  /** A node whose `next` is the head of a walk extends that walk at the
      front. */
  lemma ListPathCons(m: Mem, p: PtrSize, node: int, tail: seq<int>)
    requires |tail| > 0 && ListPath(m, p, tail)
    requires ReadPtr(m, p, node + ListNodeNext(p)) == Ok(tail[0])
    ensures ListPath(m, p, [node] + tail)
  {
    var path := [node] + tail;
    forall i | 1 <= i < |path| - 1
      ensures ReadPtr(m, p, path[i] + ListNodeNext(p)) == Ok(path[i + 1])
    {
      assert path[i] == tail[i - 1] && path[i + 1] == tail[i];
    }
  }

  /** A node whose assembly has another name, put in front of a walk that
      passes the name by, still passes it by. */
  lemma PassesByCons(m: Mem, p: PtrSize, name: string, node: int, tail: seq<int>)
    requires PassesBy(m, p, name, tail)
    requires AssemblyAt(m, p, node).Ok? && AssemblyAt(m, p, node).value.1 != name
    ensures PassesBy(m, p, name, [node] + tail)
  {
    var path := [node] + tail;
    forall j | 1 <= j < |path| - 1
      ensures AssemblyAt(m, p, path[j]).Ok? && AssemblyAt(m, p, path[j]).value.1 != name
    {
      assert path[j] == tail[j - 1];
    }
  }

  /** path walks from `from` to `to` along `next` pointers, passing by
      nodes whose assemblies have other names than `name`. */
  predicate WalkTo(m: Mem, p: PtrSize, name: string, path: seq<int>, from: int, to: int) {
    && |path| > 0 && path[0] == from && path[|path| - 1] == to
    && ListPath(m, p, path) && PassesBy(m, p, name, path)
  }

  /** A node whose `next` starts such a walk, and whose assembly has another
      name, starts a walk to the same node. */
  lemma WalkToCons(m: Mem, p: PtrSize, name: string, node: int, tail: seq<int>, next: int, to: int)
    requires WalkTo(m, p, name, tail, next, to)
    requires ReadPtr(m, p, node + ListNodeNext(p)) == Ok(next)
    requires AssemblyAt(m, p, node).Ok? && AssemblyAt(m, p, node).value.1 != name
    ensures WalkTo(m, p, name, [node] + tail, node, to)
  {
    ListPathCons(m, p, node, tail);
    PassesByCons(m, p, name, node, tail);
    assert ([node] + tail)[|tail|] == tail[|tail| - 1];
  }

  /** The node found is the first matching one: the walk reaches it from
      `node` along `next` pointers, and every node before it holds a
      readable assembly of another name. */
  lemma {:induction false} FindAssemblyFirst(m: Mem, p: PtrSize, name: string, node: int, visited: set<int>)
    requires FindAssembly(m, p, name, node, visited).Ok?
    ensures exists path :: WalkTo(m, p, name, path, node, FindAssembly(m, p, name, node, visited).value.0)
    decreases m.Keys - visited
  {
    var entry := AssemblyAt(m, p, node).value;
    var found := FindAssembly(m, p, name, node, visited).value;
    if entry.1 == name {
      assert WalkTo(m, p, name, [node], node, found.0);
    } else {
      var next := ReadPtr(m, p, node + ListNodeNext(p)).value;
      assert node in m;
      assert FindAssembly(m, p, name, next, visited + {node}) == Ok(found);
      FindAssemblyFirst(m, p, name, next, visited + {node});
      var tail :| WalkTo(m, p, name, tail, next, found.0);
      WalkToCons(m, p, name, node, tail, next, found.0);
    }
  }

  /** An assembly reported missing is on no node of the list: every node's
      assembly has another name. */
  lemma {:induction false} FindAssemblyMissing(m: Mem, p: PtrSize, name: string, node: int, visited: set<int>)
    requires FindAssembly(m, p, name, node, visited) == Err(AssemblyNotFound(name))
    ensures ListNodes(m, p, node, visited).Ok?
    ensures forall n | n in ListNodes(m, p, node, visited).value :: AssemblyAt(m, p, n).Ok? && AssemblyAt(m, p, n).value.1 != name
    decreases m.Keys - visited
  {
    if node != 0 {
      var next := ReadPtr(m, p, node + ListNodeNext(p)).value;
      assert node in m;
      FindAssemblyMissing(m, p, name, next, visited + {node});
    }
  }

  /** The assembly of that name in the list whose head is at listSlot, and
      the image address stored in it. */
  function AssemblyInList(m: Mem, p: PtrSize, name: string, listSlot: int): (r: Result<(int, int)>)
    ensures r.Err? ==> r.error.ReadFault? || r.error == EmptyAssemblyList || r.error == NonTerminating || r.error == AssemblyNotFound(name)
  {
    var head :- ReadPtr(m, p, listSlot);
    if head == 0 then Err(EmptyAssemblyList)
    else
      var found :- FindAssembly(m, p, name, head, {});
      var image :- ReadPtr(m, p, found.1 + AssemblyImagePtr);
      Ok((found.1, image))
  }

  /** An assembly found is one a node of the list points to and has the
      requested name; the image address is the pointer stored in it. */
  lemma AssemblyInListFound(m: Mem, p: PtrSize, name: string, listSlot: int)
    requires AssemblyInList(m, p, name, listSlot).Ok?
    ensures var found := AssemblyInList(m, p, name, listSlot).value;
      && FindAssembly(m, p, name, ReadPtr(m, p, listSlot).value, {}).Ok?
      && AssemblyAt(m, p, FindAssembly(m, p, name, ReadPtr(m, p, listSlot).value, {}).value.0) == Ok((found.0, name))
      && ReadPtr(m, p, found.0 + AssemblyImagePtr) == Ok(found.1)
  {
    FindAssemblyMatches(m, p, name, ReadPtr(m, p, listSlot).value, {});
  }

  /** The assembly and image address `GetAssemblyImage` settles on. */
  function AssemblyImageAddress(m: Mem, p: PtrSize, name: string, domain: int): Result<(int, int)> {
    var listSlot :- AssemblyList(m, p, domain);
    AssemblyInList(m, p, name, listSlot)
  }

  /** The walk of `GetAssemblyImage`. */
  method WalkAssemblies(m: Mem, p: PtrSize, name: string, head: int) returns (r: Result<(int, int)>)
    ensures r == FindAssembly(m, p, name, head, {})
  {
    var node := head;
    var visited: set<int> := {};
    while node != 0
      invariant FindAssembly(m, p, name, node, visited) == FindAssembly(m, p, name, head, {})
      invariant visited <= m.Keys
      decreases m.Keys - visited
    {
      if node in visited {
        return Err(NonTerminating);
      }
      var entry :- AssemblyAt(m, p, node);
      if entry.1 == name {
        return Ok((node, entry.0));
      }
      var next :- ReadPtr(m, p, node + ListNodeNext(p));
      visited := visited + {node};
      node := next;
    }
    return Err(AssemblyNotFound(name));
  }

  method FindInList(m: Mem, p: PtrSize, name: string, listSlot: int) returns (r: Result<(int, int)>)
    ensures r == AssemblyInList(m, p, name, listSlot)
  {
    var head := ReadPtr(m, p, listSlot);
    if head.Err? {
      return Err(head.error);
    }
    if head.value == 0 {
      return Err(EmptyAssemblyList);
    }
    var found := WalkAssemblies(m, p, name, head.value);
    if found.Err? {
      return Err(found.error);
    }
    AssemblyInListSteps(m, p, name, listSlot, head.value, found.value);
    var image := ReadPtr(m, p, found.value.1 + AssemblyImagePtr);
    if image.Err? {
      return Err(image.error);
    }
    return Ok((found.value.1, image.value));
  }

  /** AssemblyInList once the head reads as a non-null node and the walk
      finds the assembly: the read of its image pointer. */
  lemma AssemblyInListSteps(m: Mem, p: PtrSize, name: string, listSlot: int, head: int, found: (int, int))
    requires ReadPtr(m, p, listSlot) == Ok(head) && head != 0
    requires FindAssembly(m, p, name, head, {}) == Ok(found)
    ensures var image := ReadPtr(m, p, found.1 + AssemblyImagePtr);
      AssemblyInList(m, p, name, listSlot) == if image.Err? then Err(image.error) else Ok((found.1, image.value))
  {
  }

  /** The reads of `GetAssemblyImage` before the image is constructed. */
  method LocateAssembly(m: Mem, p: PtrSize, name: string, domain: int) returns (r: Result<(int, int)>)
    ensures r == AssemblyImageAddress(m, p, name, domain)
  {
    var listSlot :- GetAssemblyListAddress(m, p, domain);
    r := FindInList(m, p, name, listSlot);
  }

  /** What `GetAssemblyImage` delivers for a domain: the error of a failed
      read or search, or the loaded image of the assembly found (or the
      reason it failed to load). */
  ghost predicate Assembled(m: Mem, p: PtrSize, name: string, domain: int, r: Result<Image>)
    reads if r.Ok? then {r.value} else {}
  {
    match AssemblyImageAddress(m, p, name, domain)
    case Err(e) => r == Err(e)
    case Ok(found) =>
      if r.Ok? then Loaded(r.value, m, p, Resolve(m, p), found.1, found.0)
      else LoadFailure(m, p, Resolve(m, p), found.1, found.0, r.error)
  }

  /** `GetAssemblyImage`: the list head two pointers before the friendly
      name, the first assembly of that name, and its image loaded. */
  method GetAssemblyImage(m: Mem, p: PtrSize, name: string, domain: int) returns (r: Result<Image>)
    ensures r.Ok? ==> fresh(r.value)
    ensures Assembled(m, p, name, domain, r)
  {
    var found :- LocateAssembly(m, p, name, domain);
    ResolveAddressed(m, p);
    r := LoadImage(m, p, Resolve(m, p), found.1, found.0);
  }

  // ---- Create ----

  /** The mono module as the process's module list reports it. */
  datatype ModuleInfo = ModuleInfo(name: string, base: int, size: nat)

  /** The root domain of the process: the module's bytes are dumped, the
      export found, and the domain pointer read from the slot it names. */
  function RootDomain(m: Mem, p: PtrSize, mono: Option<ModuleInfo>): (r: Result<int>)
    ensures mono.None? ==> r == Err(ModuleNotFound)
    ensures r.Err? ==> r.error.ReadFault? || r.error == ModuleNotFound || r.error == SymbolNotFound
  {
    if mono.None? then Err(ModuleNotFound)
    else
      var dump :- ReadBytes(m, mono.value.base, mono.value.size);
      var fn :- RootDomainFunction(DumpMemory(dump), mono.value.base);
      var slot :- RootDomainSlot(m, fn);
      ReadPtr(m, p, slot)
  }

  /** `Create`: the image of the named assembly of the process's root domain. */
  method Create(m: Mem, p: PtrSize, mono: Option<ModuleInfo>, name: string) returns (r: Result<Image>)
    ensures RootDomain(m, p, mono).Err? ==> r == Err(RootDomain(m, p, mono).error)
    ensures RootDomain(m, p, mono).Ok? ==> Assembled(m, p, name, RootDomain(m, p, mono).value, r)
    ensures r.Ok? ==> fresh(r.value)
  {
    if mono.None? {
      return Err(ModuleNotFound);
    }
    var dump :- ReadBytes(m, mono.value.base, mono.value.size);
    var fn :- GetRootDomainFunctionAddress(DumpMemory(dump), mono.value.base);
    var slot :- RootDomainSlot(m, fn);
    var domain :- ReadPtr(m, p, slot);
    r := GetAssemblyImage(m, p, name, domain);
  }
}
