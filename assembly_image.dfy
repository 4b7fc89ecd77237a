/** A `_MonoImage`: the classes of one managed assembly. The image finds its
    class cache relative to the back-pointer to its assembly, decodes every
    class in the cache's hash chains, initialises them and indexes them by
    full name. */
module Images {
  import opened Memory
  import opened Layout
  import opened Types

  /** How the image turns a class pointer into a class: the decode of that
      address. Every entry of the image's address cache agrees with it (see
      `Image.Valid`), so links resolved through the cache are these. */
  function Resolve(m: Mem, p: PtrSize): Resolver {
    a => DecodeType(m, p, a)
  }

  /** A decoder that places every class it decodes at the address it was
      asked for, as the TypeDefinition constructor does. */
  ghost predicate Addressed(decode: Resolver) {
    forall a :: decode(a).Ok? ==> decode(a).value.address == a
  }

  lemma ResolveAddressed(m: Mem, p: PtrSize)
    ensures Addressed(Resolve(m, p))
  {
    forall a | Resolve(m, p)(a).Ok?
      ensures Resolve(m, p)(a).value.address == a
    {
      DecodeTypeLayout(m, p, a);
    }
  }

  /** `GetTypeDefinition(address)` as a value: null for the null pointer,
      otherwise the class decoded there. */
  function TypeAt(decode: Resolver, a: int): (r: Result<Option<TypeDef>>)
    ensures a == 0 ==> r == Ok(None)
    ensures a != 0 ==> (r.Ok? <==> decode(a).Ok?)
    ensures a != 0 && r.Ok? ==> r.value == Some(decode(a).value)
  {
    if a == 0 then Ok(None)
    else
      var t :- decode(a);
      Ok(Some(t))
  }

  /** A link resolved through the image is the class of the pointer in its
      slot. */
  lemma LinkedThroughImage(m: Mem, p: PtrSize, decode: Resolver, slot: int)
    ensures ReadPtr(m, p, slot).Ok? ==> Linked(m, p, decode, slot) == TypeAt(decode, ReadPtr(m, p, slot).value)
    ensures ReadPtr(m, p, slot).Err? ==> Linked(m, p, decode, slot) == Err(ReadPtr(m, p, slot).error)
  {
  }

  // ---- the assembly back-pointer ----

  /** The signed 64-bit little-endian value at offset i of the header bytes. */
  function I64At(bytes: seq<byte>, i: nat): int
    requires i + 8 <= |bytes|
  {
    assert Pow256(8) == TwoTo64;
    Signed(LittleEndian(bytes[i..i + 8]), TwoTo64)
  }

  /** An offset that is a multiple of the pointer size. */
  predicate Aligned(p: PtrSize, i: int) {
    if p == 4 then i % 4 == 0 else i % 8 == 0
  }

  /** The first pointer-aligned offset from i below 2996 whose 64-bit value is
      the assembly's address, or 0 when there is none. */
  function AssemblyOffsetFrom(bytes: seq<byte>, p: PtrSize, assembly: int, i: nat): (r: nat)
    requires |bytes| == ImageScanBytes && Aligned(p, i)
    ensures Aligned(p, r) && r < ImageScanLimit
    decreases ImageScanLimit - i
  {
    if i >= ImageScanLimit then 0
    else
      AlignedInScan(p, i);
      AlignedStep(p, i);
      if I64At(bytes, i) == assembly then i
      else AssemblyOffsetFrom(bytes, p, assembly, i + p)
  }

  /** An aligned offset below the scan limit leaves room for a 64-bit read. */
  lemma AlignedInScan(p: PtrSize, i: int)
    requires Aligned(p, i) && 0 <= i < ImageScanLimit
    ensures i + 8 <= ImageScanBytes
  {
  }

  lemma AlignedStep(p: PtrSize, i: int)
    requires Aligned(p, i)
    ensures Aligned(p, i + p)
  {
  }

  function AssemblyOffset(bytes: seq<byte>, p: PtrSize, assembly: int): nat
    requires |bytes| == ImageScanBytes
  {
    AssemblyOffsetFrom(bytes, p, assembly, 0)
  }

  /** Two aligned offsets are at least a pointer apart. */
  lemma AlignedApart(p: PtrSize, i: int, j: int)
    requires Aligned(p, i) && Aligned(p, j) && i < j
    ensures i + p <= j
  {
  }

  /** Offset j is a slot the scan reads and holds the assembly's address. */
  predicate MatchAt(bytes: seq<byte>, p: PtrSize, assembly: int, j: int)
    requires |bytes| == ImageScanBytes
  {
    0 <= j < ImageScanLimit && Aligned(p, j) && (AlignedInScan(p, j); I64At(bytes, j) == assembly)
  }

  /** The offset found is the first match at or after i; when nothing from
      i on matches, it is 0. */
  lemma {:induction false} AssemblyOffsetFromIsFirst(bytes: seq<byte>, p: PtrSize, assembly: int, i: nat)
    requires |bytes| == ImageScanBytes && Aligned(p, i)
    ensures forall j | i <= j < AssemblyOffsetFrom(bytes, p, assembly, i) :: !MatchAt(bytes, p, assembly, j)
    ensures var r := AssemblyOffsetFrom(bytes, p, assembly, i);
      (i <= r && MatchAt(bytes, p, assembly, r)) || forall j | i <= j :: !MatchAt(bytes, p, assembly, j)
    ensures (forall j | i <= j :: !MatchAt(bytes, p, assembly, j)) ==> AssemblyOffsetFrom(bytes, p, assembly, i) == 0
    decreases ImageScanLimit - i
  {
    if i < ImageScanLimit {
      AlignedInScan(p, i);
      if I64At(bytes, i) != assembly {
        AlignedStep(p, i);
        AssemblyOffsetFromIsFirst(bytes, p, assembly, i + p);
        forall j | i < j && Aligned(p, j)
          ensures i + p <= j
        {
          AlignedApart(p, i, j);
        }
        assert !MatchAt(bytes, p, assembly, i);
      } else {
        assert MatchAt(bytes, p, assembly, i);
      }
    }
  }

  /** The scan of the constructor: aligned 64-bit values of the first 3000
      bytes of the image, stopping at the first that is the assembly's
      address. */
  method FindAssemblyOffset(bytes: seq<byte>, p: PtrSize, assembly: int) returns (offset: int)
    requires |bytes| == ImageScanBytes
    ensures offset == AssemblyOffset(bytes, p, assembly)
  {
    offset := 0;
    var i := 0;
    while i < ImageScanLimit
      invariant 0 <= i && Aligned(p, i)
      invariant AssemblyOffsetFrom(bytes, p, assembly, i) == AssemblyOffset(bytes, p, assembly)
      decreases ImageScanLimit - i
    {
      AlignedInScan(p, i);
      AlignedStep(p, i);
      if I64At(bytes, i) == assembly {
        offset := i;
        return;
      }
      i := i + p;
    }
  }

  // ---- the class cache ----

  /** The slot of bucket b in the hash table. */
  function BucketSlot(p: PtrSize, table: int, b: nat): int {
    table + b * p
  }

  function PrependNodes(pre: seq<int>, r: Result<seq<int>>): Result<seq<int>> {
    if r.Ok? then Ok(pre + r.value) else r
  }

  lemma PrependNodesNothing(r: Result<seq<int>>)
    ensures PrependNodes([], r) == r
  {
    if r.Ok? {
      assert [] + r.value == r.value;
    }
  }

  lemma PrependNodesTwice(a: seq<int>, b: seq<int>, r: Result<seq<int>>)
    ensures PrependNodes(a, PrependNodes(b, r)) == PrependNodes(a + b, r)
  {
    if r.Ok? {
      assert a + (b + r.value) == (a + b) + r.value;
    }
  }

  /** The classes of one hash chain, linked through `next_class_cache`.
      `visited` holds the link slots already followed: a chain that comes
      back to one of its classes never ends. */
  function ChainFrom(m: Mem, p: PtrSize, node: int, visited: set<int>): (r: Result<seq<int>>)
    ensures r.Ok? ==> forall k | 0 <= k < |r.value| :: r.value[k] != 0
    decreases m.Keys - visited
  {
    if node == 0 then Ok([])
    else
      var slot := node + ClassNextClassCache;
      if slot in visited then Err(NonTerminating)
      else
        var next :- ReadPtr(m, p, slot);
        var rest :- ChainFrom(m, p, next, visited + {slot});
        Ok([node] + rest)
  }

  /** The classes of buckets b .. size - 1, bucket by bucket. */
  function BucketsFrom(m: Mem, p: PtrSize, table: int, size: int, b: nat): (r: Result<seq<int>>)
    decreases size - b
  {
    if b >= size then Ok([])
    else
      var head :- ReadPtr(m, p, BucketSlot(p, table, b));
      var chain :- ChainFrom(m, p, head, {});
      var rest :- BucketsFrom(m, p, table, size, b + 1);
      Ok(chain + rest)
  }

  /** The classes among `nodes` that decode; the others are skipped. */
  function Decoded(decode: Resolver, nodes: seq<int>): (r: map<int, TypeDef>)
    ensures forall a | a in r :: a in nodes && decode(a) == Ok(r[a])
    ensures forall a | a in nodes && decode(a).Ok? :: a in r
  {
    map a | a in nodes && decode(a).Ok? :: decode(a).value
  }

  lemma DecodedAppend(decode: Resolver, s: seq<int>, t: seq<int>)
    ensures Decoded(decode, s + t) == Decoded(decode, s) + Decoded(decode, t)
  {
    var l := Decoded(decode, s + t);
    var r := Decoded(decode, s) + Decoded(decode, t);
    assert l.Keys == r.Keys;
  }

  /** The header of the `_MonoInternalHashTable` at `base`: its bucket
      count, its entry count (read but not used) and its bucket table. */
  function CacheHeader(m: Mem, p: PtrSize, base: int): (r: Result<(int, int)>)
    ensures r.Ok? ==> ReadI32(m, base + ClassCacheSize(p)) == Ok(r.value.0)
    ensures r.Ok? ==> ReadPtr(m, p, base + ClassCacheTable(p)) == Ok(r.value.1)
    ensures r.Ok? <==> ReadI32(m, base + ClassCacheSize(p)).Ok? && ReadU32(m, base + ClassCacheEntries(p)).Ok? && ReadPtr(m, p, base + ClassCacheTable(p)).Ok?
  {
    var size :- ReadI32(m, base + ClassCacheSize(p));
    var entries :- ReadU32(m, base + ClassCacheEntries(p));
    var table :- ReadPtr(m, p, base + ClassCacheTable(p));
    Ok((size, table))
  }

  /** `CreateTypeDefinitions`: the hash table at `cacheOffset` from the image;
      every class in every chain that decodes is kept, keyed by address. A
      fault reading the header, a bucket or a chain link aborts the walk. */
  function ClassCache(m: Mem, p: PtrSize, decode: Resolver, image: int, cacheOffset: int): Result<map<int, TypeDef>> {
    var header :- CacheHeader(m, p, image + cacheOffset);
    var nodes :- BucketsFrom(m, p, header.1, header.0, 0);
    Ok(Decoded(decode, nodes))
  }

  /** Every cached class sits at a non-null address and is its decode. */
  lemma ClassCacheCoherent(m: Mem, p: PtrSize, decode: Resolver, image: int, cacheOffset: int)
    requires ClassCache(m, p, decode, image, cacheOffset).Ok?
    ensures var c := ClassCache(m, p, decode, image, cacheOffset).value;
      forall a | a in c :: a != 0 && decode(a) == Ok(c[a])
  {
    var header := CacheHeader(m, p, image + cacheOffset).value;
    BucketsNonNull(m, p, header.1, header.0, 0);
  }

  lemma {:induction false} BucketsNonNull(m: Mem, p: PtrSize, table: int, size: int, b: nat)
    ensures BucketsFrom(m, p, table, size, b).Ok? ==> 0 !in BucketsFrom(m, p, table, size, b).value
    decreases size - b
  {
    if b < size {
      BucketsNonNull(m, p, table, size, b + 1);
    }
  }

  /** A cache with no buckets is empty. */
  lemma EmptyClassCache(m: Mem, p: PtrSize, decode: Resolver, image: int, cacheOffset: int)
    requires ClassCache(m, p, decode, image, cacheOffset).Ok?
    requires CacheHeader(m, p, image + cacheOffset).value.0 <= 0
    ensures ClassCache(m, p, decode, image, cacheOffset) == Ok(map[])
  {
  }

  lemma ChainStep(m: Mem, p: PtrSize, node: int, visited: set<int>)
    requires node != 0 && node + ClassNextClassCache !in visited
    requires ReadPtr(m, p, node + ClassNextClassCache).Ok?
    ensures ChainFrom(m, p, node, visited) ==
      PrependNodes([node], ChainFrom(m, p, ReadPtr(m, p, node + ClassNextClassCache).value, visited + {node + ClassNextClassCache}))
  {
  }

  lemma UnionAssociative(a: map<int, TypeDef>, b: map<int, TypeDef>, c: map<int, TypeDef>)
    ensures (a + b) + c == a + (b + c)
  {
  }

  /** `GetOrAdd` of a decoded class into a coherent map is the union with
      the decode of that one address. */
  lemma KeepFirst(decode: Resolver, acc: map<int, TypeDef>, node: int)
    requires forall a | a in acc :: decode(a) == Ok(acc[a])
    ensures decode(node).Ok? && node !in acc ==> acc[node := decode(node).value] == acc + Decoded(decode, [node])
    ensures !(decode(node).Ok? && node !in acc) ==> acc == acc + Decoded(decode, [node])
  {
    var d := Decoded(decode, [node]);
    if decode(node).Ok? {
      assert d == map[node := decode(node).value];
    } else {
      assert d == map[];
    }
  }

  /** One chain walked into the classes found so far: each class is decoded,
      a failing decode is skipped, and a class already present is kept. */
  method WalkChain(m: Mem, p: PtrSize, decode: Resolver, head: int, defs: map<int, TypeDef>) returns (r: Result<map<int, TypeDef>>)
    requires forall a | a in defs :: decode(a) == Ok(defs[a])
    ensures ChainFrom(m, p, head, {}).Ok? ==> r == Ok(defs + Decoded(decode, ChainFrom(m, p, head, {}).value))
    ensures ChainFrom(m, p, head, {}).Err? ==> r == Err(ChainFrom(m, p, head, {}).error)
  {
    var acc := defs;
    var node := head;
    var visited: set<int> := {};
    ghost var walked: seq<int> := [];
    PrependNodesNothing(ChainFrom(m, p, head, {}));
    while node != 0
      invariant ChainFrom(m, p, head, {}) == PrependNodes(walked, ChainFrom(m, p, node, visited))
      invariant acc == defs + Decoded(decode, walked)
      invariant forall a | a in acc :: decode(a) == Ok(acc[a])
      decreases m.Keys - visited
    {
      var slot := node + ClassNextClassCache;
      if slot in visited {
        return Err(NonTerminating);
      }
      KeepFirst(decode, acc, node);
      var d := decode(node);
      if d.Ok? && node !in acc {
        acc := acc[node := d.value];
      }
      DecodedAppend(decode, walked, [node]);
      UnionAssociative(defs, Decoded(decode, walked), Decoded(decode, [node]));
      var next := ReadPtr(m, p, slot);
      if next.Err? {
        return Err(next.error);
      }
      ChainStep(m, p, node, visited);
      PrependNodesTwice(walked, [node], ChainFrom(m, p, next.value, visited + {slot}));
      walked := walked + [node];
      visited := visited + {slot};
      node := next.value;
    }
    r := Ok(acc);
    assert walked + [] == walked;
  }

  /** One bucket of the walk: its head slot is read, its chain followed, and
      the rest of the buckets come after it; a fault in either ends the walk. */
  lemma BucketStep(m: Mem, p: PtrSize, table: int, size: int, b: nat)
    requires b < size
    ensures ReadPtr(m, p, BucketSlot(p, table, b)).Err? ==>
      BucketsFrom(m, p, table, size, b) == Err(ReadPtr(m, p, BucketSlot(p, table, b)).error)
    ensures ReadPtr(m, p, BucketSlot(p, table, b)).Ok? ==>
      var chain := ChainFrom(m, p, ReadPtr(m, p, BucketSlot(p, table, b)).value, {});
      && (chain.Err? ==> BucketsFrom(m, p, table, size, b) == Err(chain.error))
      && (chain.Ok? ==> BucketsFrom(m, p, table, size, b) == PrependNodes(chain.value, BucketsFrom(m, p, table, size, b + 1)))
  {
  }

  /** One bucket of the walk: the chain its head slot points to, added to
      the classes of the buckets before it. */
  method WalkBucket(m: Mem, p: PtrSize, decode: Resolver, table: int, size: int, b: nat, defs: map<int, TypeDef>, ghost nodes: seq<int>)
    returns (r: Result<map<int, TypeDef>>, ghost chain: seq<int>)
    requires b < size && defs == Decoded(decode, nodes)
    ensures r.Err? ==> PrependNodes(nodes, BucketsFrom(m, p, table, size, b)) == Err(r.error)
    ensures r.Ok? ==> r.value == Decoded(decode, nodes + chain)
    ensures r.Ok? ==> PrependNodes(nodes, BucketsFrom(m, p, table, size, b)) == PrependNodes(nodes + chain, BucketsFrom(m, p, table, size, b + 1))
  {
    chain := [];
    BucketStep(m, p, table, size, b);
    var head := ReadPtr(m, p, BucketSlot(p, table, b));
    if head.Err? {
      return Err(head.error), chain;
    }
    var walked := WalkChain(m, p, decode, head.value, defs);
    if walked.Err? {
      return Err(walked.error), chain;
    }
    chain := ChainFrom(m, p, head.value, {}).value;
    DecodedAppend(decode, nodes, chain);
    PrependNodesTwice(nodes, chain, BucketsFrom(m, p, table, size, b + 1));
    r := Ok(walked.value);
  }

  /** The walk of the class cache, bucket by bucket and chain by chain. */
  method CreateTypeDefinitions(m: Mem, p: PtrSize, decode: Resolver, image: int, cacheOffset: int) returns (r: Result<map<int, TypeDef>>)
    ensures r == ClassCache(m, p, decode, image, cacheOffset)
  {
    var header := CacheHeader(m, p, image + cacheOffset);
    if header.Err? {
      return Err(header.error);
    }
    var size, table := header.value.0, header.value.1;
    var defs: map<int, TypeDef> := map[];
    var b := 0;
    ghost var nodes: seq<int> := [];
    PrependNodesNothing(BucketsFrom(m, p, table, size, 0));
    while b < size
      invariant 0 <= b
      invariant BucketsFrom(m, p, table, size, 0) == PrependNodes(nodes, BucketsFrom(m, p, table, size, b))
      invariant defs == Decoded(decode, nodes)
      decreases size - b
    {
      var walked, chain := WalkBucket(m, p, decode, table, size, b, defs, nodes);
      if walked.Err? {
        return Err(walked.error);
      }
      defs := walked.value;
      nodes := nodes + chain;
      b := b + 1;
    }
    assert BucketsFrom(m, p, table, size, b) == Ok([]);
    assert nodes + [] == nodes;
    return Ok(defs);
  }

  // ---- the image ----

  /** Names the by-name index leaves out: generic classes and compiler-made
      classes, whose names clash. */
  predicate IsGenericName(n: string) {
    '`' in n || '>' in n
  }

  /** A resolved link as a list of zero or one class. */
  function Linked1(link: Option<TypeDef>): seq<TypeDef> {
    if link.Some? then [link.value] else []
  }

  /** Init has run on t: its links were read, the classes they name are in
      the cache, and its nested hierarchy is finite. */
  ghost predicate LinksIn(m: Mem, p: PtrSize, decode: Resolver, keys: set<int>, t: TypeDef) {
    && NestedIn(m, p, decode, t).Ok?
    && Parent(m, p, decode, t).Ok?
    && (NestedIn(m, p, decode, t).value.Some? ==> NestedIn(m, p, decode, t).value.value.address in keys)
    && (Parent(m, p, decode, t).value.Some? ==> Parent(m, p, decode, t).value.value.address in keys)
    && Hierarchy(m, p, decode, t).Ok?
  }

  class Image {
    const mem: Mem
    const ptr: PtrSize
    const address: int
    const assembly: int
    /** The class decoder, the TypeDefinition constructor. */
    const decode: Resolver
    /** The identity cache: class address to class. */
    var byAddress: map<int, TypeDef>
    /** The index of non-generic classes by full name. */
    var byFullName: map<string, TypeDef>

    /** Every cached class is the decode of its (non-null) address, and
        every indexed class is cached at its address under a non-generic
        full name it really has. */
    ghost predicate Valid()
      reads this
    {
      && Addressed(decode)
      && (forall a | a in byAddress :: a != 0 && decode(a) == Ok(byAddress[a]))
      && IndexSound(mem, ptr, decode, byAddress, byFullName)
    }

    /** Init has run on every cached class, and the classes it reached are
      cached too. */
    ghost predicate LinksResolved()
      reads this
    {
      forall a | a in byAddress :: LinksIn(mem, ptr, decode, byAddress.Keys, byAddress[a])
    }

    /** Every cached class has a full name, and no two cached classes share
        one that the index keeps. */
    ghost predicate FullNamesUnique()
      reads this
    {
      UniqueNames(mem, ptr, decode, byAddress)
    }

    /** The index holds exactly the cached classes with a non-generic full
        name, each under that name. */
    ghost predicate Indexed()
      reads this
    {
      IndexedBy(mem, ptr, decode, byAddress, byFullName)
    }

    constructor (m: Mem, p: PtrSize, address: int, assembly: int, decode: Resolver, cache: map<int, TypeDef>)
      requires Addressed(decode)
      requires forall a | a in cache :: a != 0 && decode(a) == Ok(cache[a])
      ensures this.mem == m && this.ptr == p && this.address == address && this.assembly == assembly
      ensures this.decode == decode && byAddress == cache && byFullName == map[]
      ensures Valid()
    {
      this.mem := m;
      this.ptr := p;
      this.address := address;
      this.assembly := assembly;
      this.decode := decode;
      byAddress := cache;
      byFullName := map[];
    }

    /** `GetTypeDefinition(address)`: null for the null pointer; otherwise
        the cached class, or the class decoded there, which is then cached.
        A class that fails to decode is not cached. */
    method GetTypeDefinition(a: int) returns (r: Result<Option<TypeDef>>)
      requires Valid()
      modifies this
      ensures Valid()
      ensures r == TypeAt(decode, a)
      ensures r.Ok? && r.value.Some? ==> r.value.value.address == a
      ensures byAddress == (if r.Ok? && r.value.Some? then old(byAddress)[a := r.value.value] else old(byAddress))
      ensures byFullName == old(byFullName)
    {
      if a == 0 {
        return Ok(None);
      }
      if a in byAddress {
        assert byAddress[a := byAddress[a]] == byAddress;
        return Ok(Some(byAddress[a]));
      }
      var t :- decode(a);
      byAddress := byAddress[a := t];
      return Ok(Some(t));
    }

    /** `GetTypeDefinition(fullTypeName)`: the indexed class of that name. */
    function GetTypeDefinitionByName(fullName: string): (r: Option<TypeDef>)
      reads this
      ensures Valid() && r.Some? ==>
        && !IsGenericName(fullName)
        && r.value.address in byAddress && byAddress[r.value.address] == r.value
        && FullName(mem, ptr, decode, r.value) == Ok(fullName)
      ensures Indexed() && r.None? ==>
        IsGenericName(fullName) || forall a | a in byAddress :: FullName(mem, ptr, decode, byAddress[a]) != Ok(fullName)
    {
      if fullName in byFullName then Some(byFullName[fullName]) else None
    }

    /** `GetClassDefinition`: the class whose pointer is in the slot,
        resolved through the cache. */
    method GetClassDefinition(slot: int) returns (r: Result<Option<TypeDef>>)
      requires Valid()
      modifies this
      ensures Valid()
      ensures r == Linked(mem, ptr, decode, slot)
      ensures r.Ok? && r.value.Some? ==> byAddress == old(byAddress)[r.value.value.address := r.value.value]
      ensures !(r.Ok? && r.value.Some?) ==> byAddress == old(byAddress)
      ensures r.Ok? ==> forall k | k in byAddress :: k in old(byAddress) || byAddress[k] in Linked1(r.value)
      ensures byFullName == old(byFullName)
    {
      var q :- ReadPtr(mem, ptr, slot);
      r := GetTypeDefinition(q);
    }

    /** `Init` through the image: NestedIn and Parent are resolved through
        the cache, which grows by every class they reach. */
    method InitType(t: TypeDef, path: set<int>) returns (r: Result<seq<TypeDef>>)
      requires Valid()
      modifies this
      decreases mem.Keys - path, 0
      ensures Valid()
      ensures r == InitFrom(mem, ptr, decode, t, path)
      ensures old(byAddress).Keys <= byAddress.Keys
      ensures r.Ok? ==> forall k | k in byAddress :: k in old(byAddress) || byAddress[k] in r.value
      ensures r.Ok? ==> forall c | c in r.value :: c.address in byAddress && byAddress[c.address] == c
      ensures byFullName == old(byFullName)
    {
      var slot := t.address + ClassNestedIn(ptr);
      if slot in path {
        return Err(NonTerminating);
      }
      InitFromSteps(mem, ptr, decode, t, path);
      var nested := GetClassDefinition(slot);
      if nested.Err? {
        return Err(nested.error);
      }
      var fromNested := InitLinkedType(nested.value, path + {slot});
      if fromNested.Err? {
        return Err(fromNested.error);
      }
      var fromParent := InitParent(t, path + {slot});
      if fromParent.Err? {
        return Err(fromParent.error);
      }
      return Ok(fromNested.value + fromParent.value);
    }

    /** `Parent?.Init()` through the image: the parent is resolved through
        the cache, then initialised. */
    method InitParent(t: TypeDef, path: set<int>) returns (r: Result<seq<TypeDef>>)
      requires Valid()
      modifies this
      decreases mem.Keys - path, 2
      ensures Valid()
      ensures r == (var q := Parent(mem, ptr, decode, t); if q.Err? then Err(q.error) else InitLinked(mem, ptr, decode, q.value, path))
      ensures old(byAddress).Keys <= byAddress.Keys
      ensures r.Ok? ==> forall k | k in byAddress :: k in old(byAddress) || byAddress[k] in r.value
      ensures r.Ok? ==> forall c | c in r.value :: c.address in byAddress && byAddress[c.address] == c
      ensures byFullName == old(byFullName)
    {
      var parent := GetClassDefinition(t.address + ClassParent(ptr));
      if parent.Err? {
        return Err(parent.error);
      }
      r := InitLinkedType(parent.value, path);
    }

    /** `link?.Init()` through the image. */
    method InitLinkedType(link: Option<TypeDef>, path: set<int>) returns (r: Result<seq<TypeDef>>)
      requires Valid()
      requires link.Some? ==> link.value.address in byAddress && byAddress[link.value.address] == link.value
      modifies this
      decreases mem.Keys - path, 1
      ensures Valid()
      ensures r == InitLinked(mem, ptr, decode, link, path)
      ensures old(byAddress).Keys <= byAddress.Keys
      ensures r.Ok? ==> forall k | k in byAddress :: k in old(byAddress) || byAddress[k] in r.value
      ensures r.Ok? ==> forall c | c in r.value :: c.address in byAddress && byAddress[c.address] == c
      ensures byFullName == old(byFullName)
    {
      if link.None? {
        return Ok([]);
      }
      var rest :- InitType(link.value, path);
      r := Ok([link.value] + rest);
    }
  
    /** The Init pass of the constructor: Init on every class the cache walk
        found, in the cache's own order (a snapshot: the classes Init adds
        are not visited again). */
    method InitAll() returns (r: Result<()>)
      requires Valid()
      modifies this
      ensures Valid()
      ensures byFullName == old(byFullName)
      ensures forall a | a in old(byAddress) :: a in byAddress && byAddress[a] == old(byAddress)[a]
      ensures r.Ok? <==> forall a | a in old(byAddress) :: InitFrom(mem, ptr, decode, old(byAddress)[a], {}).Ok?
      ensures r.Err? ==> exists a | a in old(byAddress) :: InitFrom(mem, ptr, decode, old(byAddress)[a], {}) == Err(r.error)
      ensures r.Ok? ==> LinksResolved()
      ensures r.Ok? ==> IsInitClosure(mem, ptr, decode, old(byAddress), byAddress)
    {
      var todo := byAddress.Keys;
      ghost var snapshot := byAddress;
      while todo != {}
        invariant Valid()
        invariant byFullName == old(byFullName)
        invariant InitPass(mem, ptr, decode, snapshot, todo, byAddress)
        invariant InitCached(mem, ptr, decode, snapshot, todo, byAddress)
        decreases todo
      {
        var a := Pick(todo);
        ghost var before := byAddress;
        var res := InitType(byAddress[a], {});
        if res.Err? {
          return Err(res.error);
        }
        assert InitCallEffect(decode, before, byAddress, res.value);
        InitPassStep(mem, ptr, decode, snapshot, todo, before, byAddress, a, res.value);
        InitCachedStep(mem, ptr, decode, snapshot, todo, before, byAddress, a, res.value);
        todo := todo - {a};
      }
      return Ok(());
    }

    /** The by-name index: the full name of every cached class is read (and
        the first that fails ends the constructor), then every class with a
        non-generic full name is added under that name; adding a name twice
        fails. */
    method BuildIndex() returns (r: Result<()>)
      requires Valid() && byFullName == map[]
      modifies this
      ensures Valid() && byAddress == old(byAddress)
      ensures r.Ok? <==> FullNamesUnique()
      ensures r.Ok? ==> Indexed()
      ensures r.Err? ==> IndexFailure(mem, ptr, decode, byAddress, r.error)
    {
      var checked := CheckFullNames(mem, ptr, decode, byAddress);
      if checked.Err? {
        return Err(checked.error);
      }
      var index :- IndexClasses(mem, ptr, decode, byAddress);
      byFullName := index;
      return Ok(());
    }
  }

  /** Every indexed class is cached at its address under a non-generic
      full name it really has. */
  ghost predicate IndexSound(m: Mem, p: PtrSize, decode: Resolver, cache: map<int, TypeDef>, index: map<string, TypeDef>) {
    forall n | n in index ::
      && !IsGenericName(n)
      && index[n].address in cache
      && cache[index[n].address] == index[n]
      && FullName(m, p, decode, index[n]) == Ok(n)
  }

  /** No two cached classes share a full name that the index keeps. */
  ghost predicate UniqueNames(m: Mem, p: PtrSize, decode: Resolver, cache: map<int, TypeDef>) {
    && (forall a | a in cache :: FullName(m, p, decode, cache[a]).Ok?)
    && forall a, b | a in cache && b in cache && a != b ::
         FullName(m, p, decode, cache[a]) == FullName(m, p, decode, cache[b]) ==>
         IsGenericName(FullName(m, p, decode, cache[a]).value)
  }

  /** index holds exactly the cached classes with a non-generic full name,
      each under that name. */
  ghost predicate IndexedBy(m: Mem, p: PtrSize, decode: Resolver, cache: map<int, TypeDef>, index: map<string, TypeDef>) {
    && (forall a | a in cache :: FullName(m, p, decode, cache[a]).Ok?)
    && (forall n | n in index ::
          && !IsGenericName(n)
          && index[n].address in cache
          && cache[index[n].address] == index[n]
          && FullName(m, p, decode, index[n]) == Ok(n))
    && (forall a | a in cache && !IsGenericName(FullName(m, p, decode, cache[a]).value) ::
          FullName(m, p, decode, cache[a]).value in index)
  }

  /** Why building the index may fail: a class whose full name cannot be
      read, or two cached classes with the same non-generic full name. */
  ghost predicate IndexFailure(m: Mem, p: PtrSize, decode: Resolver, cache: map<int, TypeDef>, e: Error) {
    || (exists a | a in cache :: FullName(m, p, decode, cache[a]) == Err(e))
    || (e.DuplicateFullName? && !IsGenericName(e.fullName) &&
        exists a, b | a in cache && b in cache && a != b ::
          FullName(m, p, decode, cache[a]) == Ok(e.fullName) && FullName(m, p, decode, cache[b]) == Ok(e.fullName))
  }

  /** The full name of every cached class, read once before indexing. */
  method CheckFullNames(m: Mem, p: PtrSize, decode: Resolver, cache: map<int, TypeDef>) returns (r: Result<()>)
    ensures r.Ok? <==> forall a | a in cache :: FullName(m, p, decode, cache[a]).Ok?
    ensures r.Err? ==> exists a | a in cache :: FullName(m, p, decode, cache[a]) == Err(r.error)
  {
    var todo := cache.Keys;
    while todo != {}
      invariant todo <= cache.Keys
      invariant forall a | a in cache && a !in todo :: FullName(m, p, decode, cache[a]).Ok?
      decreases todo
    {
      var a := Pick(todo);
      var name := GetFullName(m, p, decode, cache[a]);
      if name.Err? {
        return Err(name.error);
      }
      todo := todo - {a};
    }
    return Ok(());
  }

  /** The indexing loop over classes whose full names all read. */
  method IndexClasses(m: Mem, p: PtrSize, decode: Resolver, cache: map<int, TypeDef>) returns (r: Result<map<string, TypeDef>>)
    requires Addressed(decode) && forall a | a in cache :: decode(a) == Ok(cache[a])
    requires forall a | a in cache :: FullName(m, p, decode, cache[a]).Ok?
    ensures r.Ok? <==> UniqueNames(m, p, decode, cache)
    ensures r.Ok? ==> IndexedBy(m, p, decode, cache, r.value)
    ensures r.Err? ==> IndexFailure(m, p, decode, cache, r.error)
  {
    ghost var names := map a | a in cache :: FullName(m, p, decode, cache[a]).value;
    assert NamesOf(m, p, decode, cache, names);
    CachedAtAddress(decode, cache);
    var index: map<string, TypeDef> := map[];
    var todo := cache.Keys;
    while todo != {}
      invariant IndexPass(cache, names, todo, index)
      decreases todo
    {
      var a := Pick(todo);
      var t := cache[a];
      var name := GetFullName(m, p, decode, t);
      var n := name.value;
      if !IsGenericName(n) {
        if n in index {
          IndexDuplicate(m, p, decode, cache, names, todo, index, a);
          return Err(DuplicateFullName(n));
        }
        IndexAdd(cache, names, todo, index, a);
        index := index[n := t];
      } else {
        IndexSkip(cache, names, todo, index, a);
      }
      todo := todo - {a};
    }
    IndexDone(m, p, decode, cache, names, index);
    return Ok(index);
  }

  /** Every cached class is keyed by its own address. */
  lemma CachedAtAddress(decode: Resolver, cache: map<int, TypeDef>)
    requires Addressed(decode) && forall a | a in cache :: decode(a) == Ok(cache[a])
    ensures forall a | a in cache :: cache[a].address == a
  {
    forall a | a in cache
      ensures cache[a].address == a
    {
      assert decode(a).Ok?;
    }
  }

  /** names holds the full name of every cached class. */
  ghost predicate NamesOf(m: Mem, p: PtrSize, decode: Resolver, cache: map<int, TypeDef>, names: map<int, string>) {
    forall a | a in cache :: a in names && FullName(m, p, decode, cache[a]) == Ok(names[a])
  }

  /** The invariant of the indexing loop: the index holds, each under its
      name and at most once, the non-generic classes already visited. */
  ghost predicate IndexPass(cache: map<int, TypeDef>, names: map<int, string>, todo: set<int>, index: map<string, TypeDef>) {
    && todo <= cache.Keys
    && (forall a | a in cache :: a in names && cache[a].address == a)
    && (forall n | n in index ::
          && !IsGenericName(n)
          && index[n].address in cache && index[n].address !in todo
          && cache[index[n].address] == index[n]
          && names[index[n].address] == n)
    && (forall a | a in cache && a !in todo && !IsGenericName(names[a]) ::
          names[a] in index && index[names[a]].address == a)
  }

  lemma IndexAdd(cache: map<int, TypeDef>, names: map<int, string>, todo: set<int>, index: map<string, TypeDef>, a: int)
    requires IndexPass(cache, names, todo, index)
    requires a in todo && !IsGenericName(names[a]) && names[a] !in index
    ensures IndexPass(cache, names, todo - {a}, index[names[a] := cache[a]])
  {
  }

  lemma IndexSkip(cache: map<int, TypeDef>, names: map<int, string>, todo: set<int>, index: map<string, TypeDef>, a: int)
    requires IndexPass(cache, names, todo, index)
    requires a in todo && IsGenericName(names[a])
    ensures IndexPass(cache, names, todo - {a}, index)
  {
  }

  /** A name met a second time belongs to two different cached classes. */
  lemma IndexDuplicate(m: Mem, p: PtrSize, decode: Resolver, cache: map<int, TypeDef>, names: map<int, string>,
                       todo: set<int>, index: map<string, TypeDef>, a: int)
    requires IndexPass(cache, names, todo, index) && NamesOf(m, p, decode, cache, names)
    requires a in todo && !IsGenericName(names[a]) && names[a] in index
    ensures IndexFailure(m, p, decode, cache, DuplicateFullName(names[a]))
  {
    var b := index[names[a]].address;
    assert b in cache && b != a && FullName(m, p, decode, cache[b]) == Ok(names[a]);
    assert FullName(m, p, decode, cache[a]) == Ok(names[a]);
  }

  /** The finished loop: the names are unique and the index is complete. */
  lemma IndexDone(m: Mem, p: PtrSize, decode: Resolver, cache: map<int, TypeDef>, names: map<int, string>, index: map<string, TypeDef>)
    requires IndexPass(cache, names, {}, index) && NamesOf(m, p, decode, cache, names)
    ensures UniqueNames(m, p, decode, cache)
    ensures IndexedBy(m, p, decode, cache, index)
  {
    forall a, b | a in cache && b in cache && a != b && FullName(m, p, decode, cache[a]) == FullName(m, p, decode, cache[b])
      ensures IsGenericName(FullName(m, p, decode, cache[a]).value)
    {
      assert names[a] == names[b];
    }
  }

  /** c is among the classes Init on t resolves. */
  ghost predicate InitResolved(m: Mem, p: PtrSize, decode: Resolver, t: TypeDef, c: TypeDef) {
    InitFrom(m, p, decode, t, {}).Ok? && c in InitFrom(m, p, decode, t, {}).value
  }

  /** The invariant of the Init pass: the classes of the snapshot keep their
      entries; those no longer to do, and every class their Init added, have
      had Init run; nothing else was added. */
  ghost predicate InitPass(m: Mem, p: PtrSize, decode: Resolver, snapshot: map<int, TypeDef>, todo: set<int>, cache: map<int, TypeDef>) {
    && todo <= snapshot.Keys
    && (forall a | a in snapshot :: a in cache && cache[a] == snapshot[a])
    && (forall a | a in snapshot && a !in todo :: InitFrom(m, p, decode, snapshot[a], {}).Ok?)
    && (forall k | k in cache && (k !in snapshot || k !in todo) :: LinksIn(m, p, decode, cache.Keys, cache[k]))
    && (forall k | k in cache ::
          (k in snapshot || exists a | a in snapshot && a !in todo :: InitResolved(m, p, decode, snapshot[a], cache[k])))
  }

  /** The part of the invariant of the Init pass about the classes Init
      resolved: each one is cached at its address. */
  ghost predicate InitCached(m: Mem, p: PtrSize, decode: Resolver, snapshot: map<int, TypeDef>, todo: set<int>, cache: map<int, TypeDef>) {
    forall a, c | a in snapshot && a !in todo && InitResolved(m, p, decode, snapshot[a], c) ::
      c.address in cache && cache[c.address] == c
  }

  /** One class initialised keeps every class resolved so far cached, and
      caches the classes its own Init resolved. */
  lemma InitCachedStep(m: Mem, p: PtrSize, decode: Resolver, snapshot: map<int, TypeDef>, todo: set<int>,
                       before: map<int, TypeDef>, after: map<int, TypeDef>, a: int, resolved: seq<TypeDef>)
    requires InitCached(m, p, decode, snapshot, todo, before)
    requires a in todo && a in snapshot && a in before && before[a] == snapshot[a]
    requires InitCallEffect(decode, before, after, resolved)
    requires InitFrom(m, p, decode, before[a], {}) == Ok(resolved)
    ensures InitCached(m, p, decode, snapshot, todo - {a}, after)
  {
    InitCallKeeps(decode, before, after, resolved);
    forall b, c | b in snapshot && b !in todo - {a} && InitResolved(m, p, decode, snapshot[b], c)
      ensures c.address in after && after[c.address] == c
    {
      if b != a {
        assert c.address in before && before[c.address] == c;
      }
    }
  }

  /** closure is the cache after the Init pass over cache: the cached
      classes keep their entries, every class Init resolved on one of them
      is cached at its address, nothing else is added, and every entry is
      the decode of its address. */
  ghost predicate IsInitClosure(m: Mem, p: PtrSize, decode: Resolver, cache: map<int, TypeDef>, closure: map<int, TypeDef>) {
    && (forall a | a in cache :: a in closure && closure[a] == cache[a])
    && (forall k | k in closure :: decode(k) == Ok(closure[k]))
    && (forall a, c | a in cache && InitResolved(m, p, decode, cache[a], c) :: c.address in closure && closure[c.address] == c)
    && (forall k | k in closure :: k in cache || exists a | a in cache :: InitResolved(m, p, decode, cache[a], closure[k]))
  }

  /** The cache after the Init pass does not depend on the order in which
      the classes were initialised. */
  lemma InitClosureUnique(m: Mem, p: PtrSize, decode: Resolver, cache: map<int, TypeDef>, c1: map<int, TypeDef>, c2: map<int, TypeDef>)
    requires Addressed(decode)
    requires IsInitClosure(m, p, decode, cache, c1) && IsInitClosure(m, p, decode, cache, c2)
    ensures c1 == c2
  {
    forall k | k in c1
      ensures k in c2 && c2[k] == c1[k]
    {
      ClosureEntry(m, p, decode, cache, c1, c2, k);
    }
    forall k | k in c2
      ensures k in c1
    {
      ClosureEntry(m, p, decode, cache, c2, c1, k);
    }
  }

  lemma ClosureEntry(m: Mem, p: PtrSize, decode: Resolver, cache: map<int, TypeDef>, c1: map<int, TypeDef>, c2: map<int, TypeDef>, k: int)
    requires Addressed(decode)
    requires IsInitClosure(m, p, decode, cache, c1) && IsInitClosure(m, p, decode, cache, c2)
    requires k in c1
    ensures k in c2 && c2[k] == c1[k]
  {
    if k !in cache {
      var a :| a in cache && InitResolved(m, p, decode, cache[a], c1[k]);
      assert decode(k) == Ok(c1[k]);
      assert c1[k].address == k;
    }
  }

  lemma LinksInGrows(m: Mem, p: PtrSize, decode: Resolver, keys: set<int>, more: set<int>, t: TypeDef)
    requires keys <= more && LinksIn(m, p, decode, keys, t)
    ensures LinksIn(m, p, decode, more, t)
  {
  }

  /** The conditions an Init call leaves behind for the pass: both caches
      coherent with the decoder, old entries kept, and every new entry among
      the classes Init resolved, all of which are cached. */
  ghost predicate InitCallEffect(decode: Resolver, before: map<int, TypeDef>, after: map<int, TypeDef>, resolved: seq<TypeDef>) {
    && Addressed(decode)
    && (forall k | k in before :: decode(k) == Ok(before[k]))
    && (forall k | k in after :: decode(k) == Ok(after[k]))
    && (forall k | k in before :: k in after)
    && (forall c | c in resolved :: c.address in after && after[c.address] == c)
    && (forall k | k in after :: k in before || after[k] in resolved)
  }

  lemma InitCallKeeps(decode: Resolver, before: map<int, TypeDef>, after: map<int, TypeDef>, resolved: seq<TypeDef>)
    requires InitCallEffect(decode, before, after, resolved)
    ensures before.Keys <= after.Keys
    ensures forall k | k in before :: after[k] == before[k]
  {
    forall k | k in before
      ensures k in after.Keys && after[k] == before[k]
    {
      assert decode(k) == Ok(after[k]);
    }
  }

  /** After Init on t, t and every class it resolved have their links cached. */
  lemma InitCallLinks(m: Mem, p: PtrSize, decode: Resolver, before: map<int, TypeDef>, after: map<int, TypeDef>, t: TypeDef, resolved: seq<TypeDef>)
    requires InitCallEffect(decode, before, after, resolved)
    requires t.address in after && after[t.address] == t
    requires InitFrom(m, p, decode, t, {}) == Ok(resolved)
    ensures forall c | c in [t] + resolved :: LinksIn(m, p, decode, after.Keys, c)
  {
    var done := [t] + resolved;
    InitResolvesLinks(m, p, decode, t, {});
    forall c | c in done
      ensures LinksIn(m, p, decode, after.Keys, c)
    {
      assert LinksWithin(m, p, decode, c, done);
    }
  }

  /** One class initialised keeps the invariant of the pass. */
  lemma InitPassStep(m: Mem, p: PtrSize, decode: Resolver, snapshot: map<int, TypeDef>, todo: set<int>,
                     before: map<int, TypeDef>, after: map<int, TypeDef>, a: int, resolved: seq<TypeDef>)
    requires InitPass(m, p, decode, snapshot, todo, before)
    requires a in todo
    requires InitCallEffect(decode, before, after, resolved)
    requires InitFrom(m, p, decode, before[a], {}) == Ok(resolved)
    ensures InitPass(m, p, decode, snapshot, todo - {a}, after)
  {
    var t := before[a];
    InitCallKeeps(decode, before, after, resolved);
    assert decode(a) == Ok(t);
    InitCallLinks(m, p, decode, before, after, t, resolved);
    forall k | k in after && (k !in snapshot || k !in todo - {a})
      ensures LinksIn(m, p, decode, after.Keys, after[k])
    {
      if k in before && (k !in snapshot || k !in todo) {
        LinksInGrows(m, p, decode, before.Keys, after.Keys, before[k]);
      } else if k == a {
        assert after[k] in [t] + resolved;
      } else {
        assert after[k] in [t] + resolved;
      }
    }
    forall k | k in after
      ensures k in snapshot || exists b | b in snapshot && b !in todo - {a} :: InitResolved(m, p, decode, snapshot[b], after[k])
    {
      if k !in before {
        assert InitResolved(m, p, decode, snapshot[a], after[k]);
      }
    }
  }
  // ---- the AssemblyImage constructor ----

  /** The classes the cache walk of a new image finds: the assembly
      back-pointer is looked for in the first 3000 bytes, and the class cache
      sits two pointers after it. */
  function ImageCache(m: Mem, p: PtrSize, decode: Resolver, address: int, assembly: int): Result<map<int, TypeDef>> {
    var bytes :- ReadBytes(m, address, ImageScanBytes);
    ClassCache(m, p, decode, address, AssemblyOffset(bytes, p, assembly) + ImageClassCache(p))
  }

  /** ImageCache when the header bytes fail to read. */
  lemma ImageCacheUnread(m: Mem, p: PtrSize, decode: Resolver, address: int, assembly: int)
    requires ReadBytes(m, address, ImageScanBytes).Err?
    ensures ImageCache(m, p, decode, address, assembly) == Err(ReadBytes(m, address, ImageScanBytes).error)
  {
  }

  /** ImageCache once the header bytes are read: the cache walk at the
      offset the scan found. */
  lemma ImageCacheRead(m: Mem, p: PtrSize, decode: Resolver, address: int, assembly: int, bytes: seq<byte>, offset: int)
    requires ReadBytes(m, address, ImageScanBytes) == Ok(bytes)
    requires |bytes| == ImageScanBytes && offset == AssemblyOffset(bytes, p, assembly)
    ensures ImageCache(m, p, decode, address, assembly) == ClassCache(m, p, decode, address, offset + ImageClassCache(p))
  {
  }

  /** The first half of the constructor: the 3000 header bytes are read,
      the assembly back-pointer is found among them, and the class cache two
      pointers after it is walked. */
  method ReadImageCache(m: Mem, p: PtrSize, decode: Resolver, address: int, assembly: int) returns (r: Result<map<int, TypeDef>>)
    ensures r == ImageCache(m, p, decode, address, assembly)
    ensures r.Ok? ==> forall a | a in r.value :: a != 0 && decode(a) == Ok(r.value[a])
  {
    var read := ReadBytes(m, address, ImageScanBytes);
    if read.Err? {
      ImageCacheUnread(m, p, decode, address, assembly);
      return Err(read.error);
    }
    var bytes := read.value;
    var offset := FindAssemblyOffset(bytes, p, assembly);
    ImageCacheRead(m, p, decode, address, assembly, bytes, offset);
    r := CreateTypeDefinitions(m, p, decode, address, offset + ImageClassCache(p));
    if r.Ok? {
      ClassCacheCoherent(m, p, decode, address, offset + ImageClassCache(p));
    }
  }

  /** Once Init has run on every cached class, every full name reads. */
  lemma ResolvedNamesRead(img: Image)
    requires img.LinksResolved()
    ensures forall a | a in img.byAddress :: FullName(img.mem, img.ptr, img.decode, img.byAddress[a]).Ok?
  {
    forall a | a in img.byAddress
      ensures FullName(img.mem, img.ptr, img.decode, img.byAddress[a]).Ok?
    {
      assert LinksIn(img.mem, img.ptr, img.decode, img.byAddress.Keys, img.byAddress[a]);
    }
  }

  /** A loaded image: every class the cache walk found was accepted by
      Init, its cache is exactly those classes and the classes Init reached,
      their full names are unique and the index holds them. */
  ghost predicate Loaded(img: Image, m: Mem, p: PtrSize, decode: Resolver, address: int, assembly: int)
    reads img
  {
    && img.mem == m && img.ptr == p && img.address == address && img.assembly == assembly
    && img.decode == decode
    && img.Valid() && img.LinksResolved() && img.FullNamesUnique() && img.Indexed()
    && ImageCache(m, p, decode, address, assembly).Ok?
    && var cache := ImageCache(m, p, decode, address, assembly).value;
       && (forall a | a in cache :: InitFrom(m, p, decode, cache[a], {}).Ok?)
       && IsInitClosure(m, p, decode, cache, img.byAddress)
  }

  /** Why loading may fail: the header or the cache cannot be read, Init
      fails on a cached class, or, once Init has run on all of them, a full
      name of the resulting cache cannot be read or two of its classes
      share one. */
  ghost predicate LoadFailure(m: Mem, p: PtrSize, decode: Resolver, address: int, assembly: int, e: Error) {
    match ImageCache(m, p, decode, address, assembly)
    case Err(f) => e == f
    case Ok(cache) =>
      || (exists a | a in cache :: InitFrom(m, p, decode, cache[a], {}) == Err(e))
      || ((forall a | a in cache :: InitFrom(m, p, decode, cache[a], {}).Ok?) &&
          exists closure | IsInitClosure(m, p, decode, cache, closure) :: IndexFailure(m, p, decode, closure, e))
  }

  /** Loading cannot fail once the cache reads, Init accepts every cached
      class, and the resulting cache has unique full names. */
  lemma LoadSucceeds(m: Mem, p: PtrSize, decode: Resolver, address: int, assembly: int, closure: map<int, TypeDef>, e: Error)
    requires Addressed(decode)
    requires ImageCache(m, p, decode, address, assembly).Ok?
    requires forall a | a in ImageCache(m, p, decode, address, assembly).value ::
      InitFrom(m, p, decode, ImageCache(m, p, decode, address, assembly).value[a], {}).Ok?
    requires IsInitClosure(m, p, decode, ImageCache(m, p, decode, address, assembly).value, closure)
    requires UniqueNames(m, p, decode, closure)
    ensures !LoadFailure(m, p, decode, address, assembly, e)
  {
    var cache := ImageCache(m, p, decode, address, assembly).value;
    UniqueNamesIndex(m, p, decode, closure, e);
    forall other | IsInitClosure(m, p, decode, cache, other)
      ensures !IndexFailure(m, p, decode, other, e)
    {
      InitClosureUnique(m, p, decode, cache, closure, other);
    }
  }

  /** Indexing a cache with unique full names cannot fail. */
  lemma UniqueNamesIndex(m: Mem, p: PtrSize, decode: Resolver, cache: map<int, TypeDef>, e: Error)
    requires UniqueNames(m, p, decode, cache)
    ensures !IndexFailure(m, p, decode, cache, e)
  {
    forall a | a in cache
      ensures FullName(m, p, decode, cache[a]) != Err(e)
    {
    }
    if e.DuplicateFullName? && !IsGenericName(e.fullName) {
      forall a, b | a in cache && b in cache && a != b && FullName(m, p, decode, cache[a]) == Ok(e.fullName)
        ensures FullName(m, p, decode, cache[b]) != Ok(e.fullName)
      {
      }
    }
  }

  /** The AssemblyImage constructor: find the assembly back-pointer, walk the
      class cache, run Init on every class found, then index the classes by
      full name. The decoder is the TypeDefinition constructor, `Resolve(m, p)`. */
  method LoadImage(m: Mem, p: PtrSize, decode: Resolver, address: int, assembly: int) returns (r: Result<Image>)
    requires Addressed(decode)
    ensures r.Ok? ==> fresh(r.value) && Loaded(r.value, m, p, decode, address, assembly)
    ensures r.Err? ==> LoadFailure(m, p, decode, address, assembly, r.error)
  {
    var cache :- ReadImageCache(m, p, decode, address, assembly);
    var img := new Image(m, p, address, assembly, decode, cache);
    var init := img.InitAll();
    if init.Err? {
      return Err(init.error);
    }
    ResolvedNamesRead(img);
    var index := img.BuildIndex();
    if index.Err? {
      assert IsInitClosure(m, p, decode, cache, img.byAddress);
      return Err(index.error);
    }
    return Ok(img);
  }
}
