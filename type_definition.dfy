/** A decoded `_MonoClass`: flags, class kind, static-storage vtable, the
    lazily resolved Parent and NestedIn links, the nested hierarchy and the
    full name. */
module Types {
  import opened Memory
  import opened Layout

  type u32 = x: int | 0 <= x < TwoTo32

  /** The named class kinds; the decoded discriminant may be 0 or 7 too. */
  datatype MonoTypeKind =
    | ClassDef      // 1: non-generic type
    | ClassGtd      // 2: generic type definition
    | ClassGinst    // 3: generic instantiation
    | ClassGparam   // 4: generic parameter
    | ClassArray    // 5: vector or array
    | ClassPointer  // 6: pointer or function pointer

  /** What the constructor reads eagerly. A class whose name pointer cannot be
      read keeps empty name and namespace and zero size and vtable. */
  datatype TypeDef = TypeDef(
    address: int,
    typeInfo: int,
    instanceSize: nat,
    bitFields: u32,
    flagsPackingSize: u32,
    fieldCount: int,
    name: string,
    namespace: string,
    size: int,
    vtable: int)
  {
    predicate IsInited() { InitedBit(bitFields as bv32) }
    predicate IsSizeInited() { SizeInitedBit(bitFields as bv32) }
    predicate IsValueType() { ValueTypeBit(bitFields as bv32) }
    predicate IsEnum() { EnumBit(bitFields as bv32) }

    /** Bits 16..18 of the flags/packing-size word. */
    function ClassKindValue(): (k: nat)
      ensures k < 8
    {
      (((flagsPackingSize as bv32) & 0x7_0000) >> 16) as nat
    }

    /** The named kind, when the discriminant has a name. */
    function Kind(): (r: Option<MonoTypeKind>)
      ensures r.Some? <==> 1 <= ClassKindValue() <= 6
      ensures r == Some(ClassDef) <==> ClassKindValue() == 1
      ensures r == Some(ClassPointer) <==> ClassKindValue() == 6
    {
      match ClassKindValue()
      case 1 => Some(ClassDef)
      case 2 => Some(ClassGtd)
      case 3 => Some(ClassGinst)
      case 4 => Some(ClassGparam)
      case 5 => Some(ClassArray)
      case 6 => Some(ClassPointer)
      case _ => None
    }
  }

  predicate InitedBit(w: bv32) { w & 0x1 == 0x1 }
  predicate SizeInitedBit(w: bv32) { w & 0x2 == 0x2 }
  predicate ValueTypeBit(w: bv32) { w & 0x4 == 0x4 }
  predicate EnumBit(w: bv32) { w & 0x8 == 0x8 }

  /** Each flag getter reads one bit of the flags word and no other: flipping
      bit k of the word changes a flag exactly when k is that flag's bit. */
  lemma FlagsReadOneBitEach(w: bv32, k: nat)
    requires k < 32
    ensures InitedBit(w ^ (1 << k)) != InitedBit(w) <==> k == 0
    ensures SizeInitedBit(w ^ (1 << k)) != SizeInitedBit(w) <==> k == 1
    ensures ValueTypeBit(w ^ (1 << k)) != ValueTypeBit(w) <==> k == 2
    ensures EnumBit(w ^ (1 << k)) != EnumBit(w) <==> k == 3
  {
  }

  /** The per-domain static-storage vtable: none when the runtime-info pointer
      is null, otherwise the `domain_vtables` pointer of that runtime info. */
  function VTableOf(m: Mem, p: PtrSize, a: int): Result<int> {
    var info :- ReadPtr(m, p, a + ClassRuntimeInfo(p));
    if info == 0 then Ok(0) else ReadPtr(m, p, info + RuntimeInfoDomainVTables)
  }

  /** The header members of a class and where each is read from. */
  predicate HeaderRead(m: Mem, p: PtrSize, a: int, t: TypeDef) {
    && t.address == a
    && t.typeInfo == a + ClassTypeInfo(p)
    && ReadU32(m, a + ClassInstanceSize(p)) == Ok(t.instanceSize)
    && ReadU32(m, a + ClassBitFields(p)) == Ok(t.bitFields)
    && ReadU32(m, a + ClassFlagsPackingSize(p)) == Ok(t.flagsPackingSize)
    && ReadI32(m, a + ClassFieldCount) == Ok(t.fieldCount)
  }

  /** The reads before the name, giving a class with no name yet. */
  function DecodeHeader(m: Mem, p: PtrSize, a: int): (r: Result<TypeDef>)
    ensures r.Ok? ==> HeaderRead(m, p, a, r.value)
    ensures r.Err? ==> r.error.ReadFault?
  {
    var instanceSize :- ReadU32(m, a + ClassInstanceSize(p));
    var bits :- ReadU32(m, a + ClassBitFields(p));
    var packing :- ReadU32(m, a + ClassFlagsPackingSize(p));
    var fieldCount :- ReadI32(m, a + ClassFieldCount);
    Ok(TypeDef(a, a + ClassTypeInfo(p), instanceSize, bits, packing, fieldCount, "", "", 0, 0))
  }

  /** The TypeDefinition constructor. A name that cannot be read ends the
      decode early with only the header read; an empty name fails it. */
  function DecodeType(m: Mem, p: PtrSize, a: int): Result<TypeDef> {
    var header :- DecodeHeader(m, p, a);
    var name := ReadStringPtr(m, p, a + ClassName(p));
    if name.Err? then Ok(header)
    else if name.value == "" then Err(EmptyTypeName)
    else
      var namespace :- ReadStringPtr(m, p, a + ClassNamespace(p));
      var size :- ReadI32(m, a + ClassSize(p));
      var vtable :- VTableOf(m, p, a);
      Ok(header.(name := name.value, namespace := namespace, size := size, vtable := vtable))
  }

  /** The vtable indirection: 0 for a null runtime-info pointer, otherwise the
      pointer read at runtime-info + 4. */
  lemma VTableLayout(m: Mem, p: PtrSize, a: int)
    ensures ReadPtr(m, p, a + ClassRuntimeInfo(p)) == Ok(0) ==> VTableOf(m, p, a) == Ok(0)
    ensures VTableOf(m, p, a).Err? ==> VTableOf(m, p, a).error.ReadFault?
    ensures ReadPtr(m, p, a + ClassRuntimeInfo(p)).Ok? && ReadPtr(m, p, a + ClassRuntimeInfo(p)).value != 0 ==>
      VTableOf(m, p, a) == ReadPtr(m, p, ReadPtr(m, p, a + ClassRuntimeInfo(p)).value + RuntimeInfoDomainVTables)
  {
  }

  /** Where the header members of a decoded class come from. */
  lemma DecodeTypeLayout(m: Mem, p: PtrSize, a: int)
    ensures DecodeType(m, p, a).Ok? ==> HeaderRead(m, p, a, DecodeType(m, p, a).value)
  {
    if DecodeType(m, p, a).Ok? {
      assert DecodeHeader(m, p, a).Ok?;
    }
  }

  /** Decoding fails on an empty name exactly when the header reads and the
      name read is empty. */
  lemma DecodeTypeEmptyName(m: Mem, p: PtrSize, a: int)
    ensures DecodeType(m, p, a) == Err(EmptyTypeName) <==>
      DecodeHeader(m, p, a).Ok? && ReadStringPtr(m, p, a + ClassName(p)) == Ok("")
  {
  }

  /** A class whose name cannot be read keeps an empty name, namespace,
      size and vtable. */
  lemma DecodeTypeUnnamed(m: Mem, p: PtrSize, a: int)
    requires DecodeType(m, p, a).Ok? && ReadStringPtr(m, p, a + ClassName(p)).Err?
    ensures var t := DecodeType(m, p, a).value;
      t.name == "" && t.namespace == "" && t.size == 0 && t.vtable == 0
  {
  }

  /** A class whose name is read has that non-empty name, and its namespace,
      size and vtable read from their slots. */
  lemma DecodeTypeNamed(m: Mem, p: PtrSize, a: int)
    requires DecodeType(m, p, a).Ok? && ReadStringPtr(m, p, a + ClassName(p)).Ok?
    ensures var t := DecodeType(m, p, a).value;
      && ReadStringPtr(m, p, a + ClassName(p)) == Ok(t.name) && t.name != ""
      && ReadStringPtr(m, p, a + ClassNamespace(p)) == Ok(t.namespace)
      && ReadI32(m, a + ClassSize(p)) == Ok(t.size)
      && VTableOf(m, p, a) == Ok(t.vtable)
  {
    var header := DecodeHeader(m, p, a);
    assert header.Ok?;
  }

  /** `Image.GetTypeDefinition(address)`: how a class pointer becomes a class.
      The image answers from its identity cache, and every cached entry is the
      decode of its address (see the Images module), so the links below are
      stated for any resolver and instantiated with the image's. */
  type Resolver = int -> Result<TypeDef>

  /** A class linked from the pointer slot at `slot`, resolved through the
      image's identity cache; every cached entry is the decode of its address. */
  function Linked(m: Mem, p: PtrSize, rs: Resolver, slot: int): (r: Result<Option<TypeDef>>)
    ensures r.Ok? ==> slot in m
  {
    var q :- ReadPtr(m, p, slot);
    if q == 0 then Ok(None)
    else
      var t :- rs(q);
      Ok(Some(t))
  }

  function NestedIn(m: Mem, p: PtrSize, rs: Resolver, t: TypeDef): Result<Option<TypeDef>> {
    Linked(m, p, rs, t.address + ClassNestedIn(p))
  }

  function Parent(m: Mem, p: PtrSize, rs: Resolver, t: TypeDef): Result<Option<TypeDef>> {
    Linked(m, p, rs, t.address + ClassParent(p))
  }

  // ---- NestedHierarchy ----

  function Prepend(pre: seq<TypeDef>, r: Result<seq<TypeDef>>): Result<seq<TypeDef>> {
    if r.Ok? then Ok(pre + r.value) else r
  }

  /** The class, its NestedIn, that one's NestedIn, and so on until a null
      link. `visited` holds the NestedIn slots already read: meeting one again
      means the source's loop would run forever, reported as NonTerminating. */
  function HierarchyFrom(m: Mem, p: PtrSize, rs: Resolver, t: TypeDef, visited: set<int>): (r: Result<seq<TypeDef>>)
    ensures r.Ok? ==> |r.value| > 0 && r.value[0] == t
    decreases m.Keys - visited
  {
    var slot := t.address + ClassNestedIn(p);
    if slot in visited then Err(NonTerminating)
    else
      var next :- NestedIn(m, p, rs, t);
      match next
      case None => Ok([t])
      case Some(n) =>
        var rest :- HierarchyFrom(m, p, rs, n, visited + {slot});
        Ok([t] + rest)
  }

  function Hierarchy(m: Mem, p: PtrSize, rs: Resolver, t: TypeDef): Result<seq<TypeDef>> {
    HierarchyFrom(m, p, rs, t, {})
  }

  lemma PrependNothing(r: Result<seq<TypeDef>>)
    ensures Prepend([], r) == r
  {
    if r.Ok? {
      assert [] + r.value == r.value;
    }
  }

  lemma PrependTwice(a: seq<TypeDef>, b: seq<TypeDef>, r: Result<seq<TypeDef>>)
    ensures Prepend(a, Prepend(b, r)) == Prepend(a + b, r)
  {
    if r.Ok? {
      assert a + (b + r.value) == (a + b) + r.value;
    }
  }

  /** h is a chain of NestedIn links ending at a class with no NestedIn. */
  predicate IsChain(m: Mem, p: PtrSize, rs: Resolver, h: seq<TypeDef>) {
    && |h| > 0
    && NestedIn(m, p, rs, h[|h| - 1]) == Ok(None)
    && forall i | 0 <= i < |h| - 1 :: NestedIn(m, p, rs, h[i]) == Ok(Some(h[i + 1]))
  }

  /** A class whose NestedIn is the head of a chain extends that chain. */
  lemma ChainCons(m: Mem, p: PtrSize, rs: Resolver, t: TypeDef, rest: seq<TypeDef>)
    requires IsChain(m, p, rs, rest) && NestedIn(m, p, rs, t) == Ok(Some(rest[0]))
    ensures IsChain(m, p, rs, [t] + rest)
  {
    var h := [t] + rest;
    forall i | 0 <= i < |h| - 1
      ensures NestedIn(m, p, rs, h[i]) == Ok(Some(h[i + 1]))
    {
      if i > 0 {
        assert h[i] == rest[i - 1] && h[i + 1] == rest[i];
      }
    }
  }

  /** A successful walk is a chain of NestedIn links ending at a class with
      no NestedIn. */
  lemma {:induction false} HierarchyFromIsChain(m: Mem, p: PtrSize, rs: Resolver, t: TypeDef, visited: set<int>)
    requires HierarchyFrom(m, p, rs, t, visited).Ok?
    ensures IsChain(m, p, rs, HierarchyFrom(m, p, rs, t, visited).value)
    decreases m.Keys - visited
  {
    var slot := t.address + ClassNestedIn(p);
    var next := NestedIn(m, p, rs, t);
    if next.value.Some? {
      var n := next.value.value;
      HierarchyFromIsChain(m, p, rs, n, visited + {slot});
      var rest := HierarchyFrom(m, p, rs, n, visited + {slot}).value;
      ChainCons(m, p, rs, t, rest);
      assert HierarchyFrom(m, p, rs, t, visited).value == [t] + rest;
    } else {
      assert HierarchyFrom(m, p, rs, t, visited).value == [t];
    }
  }

  /** Fewer visited slots never change a walk that succeeds. */
  lemma {:induction false} HierarchyFromFewerVisited(m: Mem, p: PtrSize, rs: Resolver, t: TypeDef, visited: set<int>, fewer: set<int>)
    requires fewer <= visited
    requires HierarchyFrom(m, p, rs, t, visited).Ok?
    ensures HierarchyFrom(m, p, rs, t, fewer) == HierarchyFrom(m, p, rs, t, visited)
    decreases m.Keys - fewer
  {
    var slot := t.address + ClassNestedIn(p);
    var next := NestedIn(m, p, rs, t);
    if next.value.Some? {
      HierarchyFromFewerVisited(m, p, rs, next.value.value, visited + {slot}, fewer + {slot});
    }
  }

  /** The hierarchy of a nested class is the class followed by the hierarchy
      of the class it is nested in. */
  lemma HierarchyOfNested(m: Mem, p: PtrSize, rs: Resolver, t: TypeDef, o: TypeDef)
    requires NestedIn(m, p, rs, t) == Ok(Some(o))
    requires Hierarchy(m, p, rs, t).Ok?
    ensures Hierarchy(m, p, rs, o).Ok? && Hierarchy(m, p, rs, t).value == [t] + Hierarchy(m, p, rs, o).value
  {
    var slot := t.address + ClassNestedIn(p);
    assert {} + {slot} == {slot};
    HierarchyFromFewerVisited(m, p, rs, o, {slot}, {});
  }

  /** `NestedHierarchy`: the while loop that follows NestedIn. */
  method NestedHierarchy(m: Mem, p: PtrSize, rs: Resolver, t: TypeDef) returns (r: Result<seq<TypeDef>>)
    ensures r == Hierarchy(m, p, rs, t)
  {
    var done: seq<TypeDef> := [];
    var nested := t;
    var visited: set<int> := {};
    PrependNothing(HierarchyFrom(m, p, rs, t, {}));
    while true
      invariant Hierarchy(m, p, rs, t) == Prepend(done, HierarchyFrom(m, p, rs, nested, visited))
      decreases m.Keys - visited
    {
      var slot := nested.address + ClassNestedIn(p);
      if slot in visited {
        return Err(NonTerminating);
      }
      var next := NestedIn(m, p, rs, nested);
      if next.Err? {
        return Err(next.error);
      }
      if next.value.None? {
        return Ok(done + [nested]);
      }
      PrependTwice(done, [nested], HierarchyFrom(m, p, rs, next.value.value, visited + {slot}));
      done := done + [nested];
      visited := visited + {slot};
      nested := next.value.value;
    }
  }

  // ---- Init ----

  /** `Init`: initialise the class NestedIn resolves to, then the class
      Parent resolves to. The result lists every class resolved on the way,
      in order. `path` holds the NestedIn slots of the classes whose Init is
      still running: meeting one again is a recursion without end. */
  function InitFrom(m: Mem, p: PtrSize, rs: Resolver, t: TypeDef, path: set<int>): (r: Result<seq<TypeDef>>)
    decreases m.Keys - path, 0
  {
    var slot := t.address + ClassNestedIn(p);
    if slot in path then Err(NonTerminating)
    else
      var nested :- NestedIn(m, p, rs, t);
      var fromNested :- InitLinked(m, p, rs, nested, path + {slot});
      var parent :- Parent(m, p, rs, t);
      var fromParent :- InitLinked(m, p, rs, parent, path + {slot});
      Ok(fromNested + fromParent)
  }

  /** `link?.Init()`: nothing for a null link; otherwise the linked class,
      then every class its Init resolves. */
  function InitLinked(m: Mem, p: PtrSize, rs: Resolver, link: Option<TypeDef>, path: set<int>): (r: Result<seq<TypeDef>>)
    ensures r.Ok? && link.Some? ==> |r.value| > 0 && r.value[0] == link.value
    decreases m.Keys - path, 1
  {
    if link.None? then Ok([])
    else
      var rest :- InitFrom(m, p, rs, link.value, path);
      Ok([link.value] + rest)
  }

  /** The steps of Init for a class not already on the path. */
  lemma InitFromSteps(m: Mem, p: PtrSize, rs: Resolver, t: TypeDef, path: set<int>)
    requires t.address + ClassNestedIn(p) !in path
    ensures var slot := t.address + ClassNestedIn(p);
      var n := NestedIn(m, p, rs, t);
      var a := if n.Ok? then InitLinked(m, p, rs, n.value, path + {slot}) else Err(n.error);
      var q := Parent(m, p, rs, t);
      var b := if q.Ok? then InitLinked(m, p, rs, q.value, path + {slot}) else Err(q.error);
      InitFrom(m, p, rs, t, path) ==
        if n.Err? then Err(n.error)
        else if a.Err? then Err(a.error)
        else if q.Err? then Err(q.error)
        else if b.Err? then Err(b.error)
        else Ok(a.value + b.value)
  {
  }

  /** A class whose Init succeeds has a finite nested hierarchy, so a full
      name. */
  lemma {:induction false} InitGivesHierarchy(m: Mem, p: PtrSize, rs: Resolver, t: TypeDef, path: set<int>)
    requires InitFrom(m, p, rs, t, path).Ok?
    ensures HierarchyFrom(m, p, rs, t, path).Ok?
    decreases m.Keys - path
  {
    var slot := t.address + ClassNestedIn(p);
    var nested := NestedIn(m, p, rs, t).value;
    if nested.Some? {
      InitGivesHierarchy(m, p, rs, nested.value, path + {slot});
    }
  }

  /** Init has run on c: its links are read, the classes they name are among
      `done`, and its nested hierarchy is finite. */
  ghost predicate LinksWithin(m: Mem, p: PtrSize, rs: Resolver, c: TypeDef, done: seq<TypeDef>) {
    && NestedIn(m, p, rs, c).Ok? && Parent(m, p, rs, c).Ok? && Hierarchy(m, p, rs, c).Ok?
    && (NestedIn(m, p, rs, c).value.Some? ==> NestedIn(m, p, rs, c).value.value in done)
    && (Parent(m, p, rs, c).value.Some? ==> Parent(m, p, rs, c).value.value in done)
  }

  /** Every class of `done` has had its links resolved into `done`. */
  ghost predicate Closed(m: Mem, p: PtrSize, rs: Resolver, done: seq<TypeDef>) {
    forall c {:trigger LinksWithin(m, p, rs, c, done)} | c in done :: LinksWithin(m, p, rs, c, done)
  }

  /** Links resolved into a list stay resolved in a list that contains it. */
  lemma LinksWithinGrow(m: Mem, p: PtrSize, rs: Resolver, c: TypeDef, small: seq<TypeDef>, big: seq<TypeDef>)
    requires LinksWithin(m, p, rs, c, small)
    requires forall x | x in small :: x in big
    ensures LinksWithin(m, p, rs, c, big)
  {
  }

  /** A class whose links are resolved, followed by two closed lists, is
      closed. */
  lemma ClosedJoin(m: Mem, p: PtrSize, rs: Resolver, t: TypeDef, a: seq<TypeDef>, b: seq<TypeDef>)
    requires LinksWithin(m, p, rs, t, [t] + (a + b))
    requires Closed(m, p, rs, a) && Closed(m, p, rs, b)
    ensures Closed(m, p, rs, [t] + (a + b))
  {
    var done := [t] + (a + b);
    forall c | c in done
      ensures LinksWithin(m, p, rs, c, done)
    {
      if c in a {
        LinksWithinGrow(m, p, rs, c, a, done);
      } else if c in b {
        LinksWithinGrow(m, p, rs, c, b, done);
      }
    }
  }

  /** The classes Init resolves: those of the NestedIn link, then those of
      the Parent link. */
  lemma InitFromParts(m: Mem, p: PtrSize, rs: Resolver, t: TypeDef, path: set<int>)
    requires InitFrom(m, p, rs, t, path).Ok?
    ensures var slot := t.address + ClassNestedIn(p);
      && NestedIn(m, p, rs, t).Ok? && Parent(m, p, rs, t).Ok?
      && InitLinked(m, p, rs, NestedIn(m, p, rs, t).value, path + {slot}).Ok?
      && InitLinked(m, p, rs, Parent(m, p, rs, t).value, path + {slot}).Ok?
      && InitFrom(m, p, rs, t, path).value ==
         InitLinked(m, p, rs, NestedIn(m, p, rs, t).value, path + {slot}).value
         + InitLinked(m, p, rs, Parent(m, p, rs, t).value, path + {slot}).value
  {
  }

  /** After Init, the class's own links are resolved among the classes it
      resolved, and its nested hierarchy is finite. */
  lemma InitHeadLinks(m: Mem, p: PtrSize, rs: Resolver, t: TypeDef, path: set<int>)
    requires InitFrom(m, p, rs, t, path).Ok?
    ensures LinksWithin(m, p, rs, t, [t] + InitFrom(m, p, rs, t, path).value)
  {
    var slot := t.address + ClassNestedIn(p);
    InitFromParts(m, p, rs, t, path);
    var nested := NestedIn(m, p, rs, t).value;
    var parent := Parent(m, p, rs, t).value;
    var fromNested := InitLinked(m, p, rs, nested, path + {slot}).value;
    var fromParent := InitLinked(m, p, rs, parent, path + {slot}).value;
    var done := [t] + InitFrom(m, p, rs, t, path).value;
    InitGivesHierarchy(m, p, rs, t, path);
    HierarchyFromFewerVisited(m, p, rs, t, path, {});
    assert nested.Some? ==> done[1] == nested.value;
    assert parent.Some? ==> done[1 + |fromNested|] == parent.value;
  }

  /** Init resolves the links of the class and of every class it resolves:
      the resolved classes are closed under NestedIn and Parent, and each of
      them has a finite nested hierarchy. */
  lemma {:induction false} InitResolvesLinks(m: Mem, p: PtrSize, rs: Resolver, t: TypeDef, path: set<int>)
    requires InitFrom(m, p, rs, t, path).Ok?
    ensures Closed(m, p, rs, [t] + InitFrom(m, p, rs, t, path).value)
    decreases m.Keys - path, 0
  {
    var slot := t.address + ClassNestedIn(p);
    InitFromParts(m, p, rs, t, path);
    var nested := NestedIn(m, p, rs, t).value;
    var parent := Parent(m, p, rs, t).value;
    InitLinkedResolvesLinks(m, p, rs, nested, path + {slot});
    InitLinkedResolvesLinks(m, p, rs, parent, path + {slot});
    InitHeadLinks(m, p, rs, t, path);
    var fromNested := InitLinked(m, p, rs, nested, path + {slot}).value;
    var fromParent := InitLinked(m, p, rs, parent, path + {slot}).value;
    ClosedJoin(m, p, rs, t, fromNested, fromParent);
  }

  lemma {:induction false} InitLinkedResolvesLinks(m: Mem, p: PtrSize, rs: Resolver, link: Option<TypeDef>, path: set<int>)
    requires InitLinked(m, p, rs, link, path).Ok?
    ensures Closed(m, p, rs, InitLinked(m, p, rs, link, path).value)
    decreases m.Keys - path, 1
  {
    if link.Some? {
      InitResolvesLinks(m, p, rs, link.value, path);
    }
  }

  // ---- GetFullName ----

  /** `char.IsWhiteSpace` on the characters a name can hold: strings are
      read as ASCII, so U+0085 and U+00A0 never occur. */
  predicate IsWhiteSpace(c: char) {
    c == ' ' || c == '\t' || c == '\n' || c == '\U{B}' || c == '\U{C}' || c == '\r'
  }

  /** `string.IsNullOrWhiteSpace`; a null namespace is decoded as "". */
  predicate IsNullOrWhiteSpace(s: string) {
    forall i | 0 <= i < |s| :: IsWhiteSpace(s[i])
  }

  function NamespacePrefix(ns: string): string {
    if IsNullOrWhiteSpace(ns) then "" else ns + "."
  }

  function Reverse<T>(s: seq<T>): (r: seq<T>)
    ensures |r| == |s| && forall i | 0 <= i < |s| :: r[i] == s[|s| - 1 - i]
  {
    if s == [] then [] else Reverse(s[1..]) + [s[0]]
  }

  /** Each name followed by '+', in order. */
  function Appended(ts: seq<TypeDef>): string {
    if ts == [] then "" else Appended(ts[..|ts| - 1]) + ts[|ts| - 1].name + "+"
  }

  lemma AppendedSnoc(ts: seq<TypeDef>, i: nat)
    requires i < |ts|
    ensures Appended(ts[..i + 1]) == Appended(ts[..i]) + ts[i].name + "+"
  {
    assert ts[..i + 1][..i] == ts[..i];
  }

  /** `TrimEnd('+')`: every trailing '+' goes. */
  function TrimEndPlus(s: string): (r: string)
    ensures r <= s
    ensures r == "" || r[|r| - 1] != '+'
    ensures forall i | |r| <= i < |s| :: s[i] == '+'
  {
    if s != [] && s[|s| - 1] == '+' then TrimEndPlus(s[..|s| - 1]) else s
  }

  /** The full name of a hierarchy listed innermost first. */
  function FullNameOf(h: seq<TypeDef>): string
    requires |h| > 0
  {
    var outward := Reverse(h);
    TrimEndPlus(NamespacePrefix(outward[0].namespace) + Appended(outward))
  }

  function FullName(m: Mem, p: PtrSize, rs: Resolver, t: TypeDef): Result<string> {
    var h :- Hierarchy(m, p, rs, t);
    Ok(FullNameOf(h))
  }

  /** `GetFullName`: the nested hierarchy, then the StringBuilder loop. */
  method GetFullName(m: Mem, p: PtrSize, rs: Resolver, t: TypeDef) returns (r: Result<string>)
    ensures r == FullName(m, p, rs, t)
  {
    var nested := NestedHierarchy(m, p, rs, t);
    if nested.Err? {
      return Err(nested.error);
    }
    var name := JoinHierarchy(nested.value);
    return Ok(name);
  }

  /** The StringBuilder loop: namespace prefix, then every name outermost
      first, each followed by '+', then the trailing '+' trimmed. */
  method JoinHierarchy(h: seq<TypeDef>) returns (name: string)
    requires |h| > 0
    ensures name == FullNameOf(h)
  {
    var hierarchy := Reverse(h);
    var builder := "";
    if !IsNullOrWhiteSpace(hierarchy[0].namespace) {
      builder := hierarchy[0].namespace + ".";
    }
    ghost var prefix := builder;
    for i := 0 to |hierarchy|
      invariant builder == prefix + Appended(hierarchy[..i])
    {
      AppendedSnoc(hierarchy, i);
      builder := builder + hierarchy[i].name + "+";
    }
    assert hierarchy[..|hierarchy|] == hierarchy;
    return TrimEndPlus(builder);
  }

  /** A name that the trailing-'+' trim leaves intact. */
  predicate WellNamed(t: TypeDef) {
    |t.name| > 0 && t.name[|t.name| - 1] != '+'
  }

  lemma TrimAfterName(x: string, name: string)
    requires |name| > 0 && name[|name| - 1] != '+'
    ensures TrimEndPlus(x + name + "+") == x + name
  {
    var s := x + name + "+";
    assert s[..|s| - 1] == x + name;
  }

  /** A top-level class in namespace NS is named `NS.Name` (just `Name` when
      the namespace is empty or blank). */
  lemma FullNameTopLevel(m: Mem, p: PtrSize, rs: Resolver, t: TypeDef)
    requires NestedIn(m, p, rs, t) == Ok(None)
    requires WellNamed(t)
    ensures FullName(m, p, rs, t) == Ok(NamespacePrefix(t.namespace) + t.name)
    ensures !IsNullOrWhiteSpace(t.namespace) ==> FullName(m, p, rs, t) == Ok(t.namespace + "." + t.name)
  {
    assert Hierarchy(m, p, rs, t) == Ok([t]);
    FullNameOfOne(t);
  }

  lemma FullNameOfOne(t: TypeDef)
    requires WellNamed(t)
    ensures FullNameOf([t]) == NamespacePrefix(t.namespace) + t.name
  {
    var pre := NamespacePrefix(t.namespace);
    assert Reverse([t]) == [t];
    assert Appended([t]) == t.name + "+" by {
      assert [t][..0] == [];
      assert Appended([t]) == "" + t.name + "+";
    }
    assert pre + Appended([t]) == pre + t.name + "+";
    TrimAfterName(pre, t.name);
  }

  /** A class nested in `o` is named `o`'s full name, '+', its own name:
      names run outermost to innermost with no trailing '+'. */
  lemma FullNameNested(m: Mem, p: PtrSize, rs: Resolver, t: TypeDef, o: TypeDef)
    requires NestedIn(m, p, rs, t) == Ok(Some(o))
    requires Hierarchy(m, p, rs, t).Ok?
    requires WellNamed(t) && WellNamed(o)
    ensures FullName(m, p, rs, o).Ok?
    ensures FullName(m, p, rs, t) == Ok(FullName(m, p, rs, o).value + "+" + t.name)
  {
    HierarchyOfNested(m, p, rs, t, o);
    var ho := Hierarchy(m, p, rs, o).value;
    FullNameOfCons(t, ho);
  }

  lemma FullNameOfCons(t: TypeDef, ho: seq<TypeDef>)
    requires |ho| > 0 && WellNamed(t) && WellNamed(ho[0])
    ensures FullNameOf([t] + ho) == FullNameOf(ho) + "+" + t.name
  {
    var ro := Reverse(ho);
    var rt := Reverse([t] + ho);
    var pre := NamespacePrefix(ro[0].namespace);
    AppendedReverseCons(t, ho);
    FullNameOfPlus(ho);
    var a := Appended(ro);
    assert Appended(rt) == (a + t.name) + "+";
    ConcatAssociative(pre, a + t.name, "+");
    ConcatAssociative(pre, a, t.name);
    TrimAfterName(pre + a, t.name);
  }

  /** Before trimming, the joined names end in exactly one '+' after the
      innermost name. */
  lemma FullNameOfPlus(h: seq<TypeDef>)
    requires |h| > 0 && WellNamed(h[0])
    ensures NamespacePrefix(Reverse(h)[0].namespace) + Appended(Reverse(h)) == FullNameOf(h) + "+"
  {
    var ro := Reverse(h);
    var pre := NamespacePrefix(ro[0].namespace);
    var a := Appended(ro[..|ro| - 1]);
    var inner := h[0].name;
    assert Appended(ro) == (a + inner) + "+";
    ConcatAssociative(pre, a + inner, "+");
    ConcatAssociative(pre, a, inner);
    TrimAfterName(pre + a, inner);
  }

  lemma ConcatAssociative(x: string, y: string, z: string)
    ensures x + (y + z) == (x + y) + z
  {
  }

  lemma AppendedReverseCons(t: TypeDef, ho: seq<TypeDef>)
    requires |ho| > 0
    ensures Reverse([t] + ho)[0] == Reverse(ho)[0]
    ensures Appended(Reverse([t] + ho)) == Appended(Reverse(ho)) + t.name + "+"
  {
    ReverseCons(t, ho);
    AppendedSnocOne(Reverse(ho), t);
  }

  lemma ReverseCons<T>(t: T, s: seq<T>)
    ensures Reverse([t] + s) == Reverse(s) + [t]
  {
    var ts := [t] + s;
    forall i | 0 <= i < |s|
      ensures Reverse(ts)[i] == Reverse(s)[i]
    {
      assert ts[|ts| - 1 - i] == s[|s| - 1 - i];
    }
  }

  lemma AppendedSnocOne(s: seq<TypeDef>, t: TypeDef)
    ensures Appended(s + [t]) == Appended(s) + t.name + "+"
  {
    assert (s + [t])[..|s|] == s;
  }
}
