/** A class's fields (its own, read from the descriptor array, plus its
    parent's, ordered by name), field lookup and static-field addressing. */
module TypeFields {
  import opened Memory
  import opened Layout
  import opened Types
  import opened Fields

  // ---- ordering by name ----

  /** Ordinal (character-code) lexicographic order on names. */
  predicate NameLe(a: string, b: string)
    decreases |a|
  {
    if a == [] then true
    else if b == [] then false
    else if a[0] != b[0] then a[0] < b[0]
    else NameLe(a[1..], b[1..])
  }

  lemma {:induction false} NameLeReflexive(a: string)
    ensures NameLe(a, a)
    decreases |a|
  {
    if a != [] {
      NameLeReflexive(a[1..]);
    }
  }

  lemma {:induction false} NameLeTotal(a: string, b: string)
    ensures NameLe(a, b) || NameLe(b, a)
    decreases |a|
  {
    if a != [] && b != [] && a[0] == b[0] {
      NameLeTotal(a[1..], b[1..]);
    }
  }

  lemma {:induction false} NameLeTransitive(a: string, b: string, c: string)
    requires NameLe(a, b) && NameLe(b, c)
    ensures NameLe(a, c)
    decreases |a|
  {
    if a != [] && b != [] && c != [] && a[0] == b[0] && b[0] == c[0] {
      NameLeTransitive(a[1..], b[1..], c[1..]);
    }
  }

  lemma {:induction false} NameLeAntisymmetric(a: string, b: string)
    requires NameLe(a, b) && NameLe(b, a)
    ensures a == b
    decreases |a|
  {
    if a != [] && b != [] {
      NameLeAntisymmetric(a[1..], b[1..]);
      assert a == [a[0]] + a[1..] && b == [b[0]] + b[1..];
    }
  }

  predicate SortedByName(s: seq<FieldDef>) {
    forall i, j | 0 <= i < j < |s| :: NameLe(s[i].name, s[j].name)
  }

  /** The fields named n, in their order in s. */
  function WithName(s: seq<FieldDef>, n: string): (r: seq<FieldDef>)
    ensures |r| <= |s|
    ensures forall k | 0 <= k < |r| :: r[k].name == n
  {
    if s == [] then []
    else (if s[0].name == n then [s[0]] else []) + WithName(s[1..], n)
  }

  lemma WithNameCons(x: FieldDef, s: seq<FieldDef>, n: string)
    ensures WithName([x] + s, n) == (if x.name == n then [x] else []) + WithName(s, n)
  {
    assert ([x] + s)[0] == x && ([x] + s)[1..] == s;
  }

  lemma {:induction false} WithNameAppend(s: seq<FieldDef>, t: seq<FieldDef>, n: string)
    ensures WithName(s + t, n) == WithName(s, n) + WithName(t, n)
  {
    if s == [] {
      assert s + t == t;
    } else {
      assert s + t == [s[0]] + (s[1..] + t);
      WithNameCons(s[0], s[1..] + t, n);
      WithNameAppend(s[1..], t, n);
      assert s == [s[0]] + s[1..];
      WithNameCons(s[0], s[1..], n);
    }
  }

  /** f placed before the first field whose name is not below f's. */
  function Insert(f: FieldDef, s: seq<FieldDef>): (r: seq<FieldDef>)
    ensures multiset(r) == multiset{f} + multiset(s)
    ensures |r| == |s| + 1
  {
    if s == [] then [f]
    else if NameLe(f.name, s[0].name) then [f] + s
    else
      assert s == [s[0]] + s[1..];
      [s[0]] + Insert(f, s[1..])
  }

  /** `OrderBy(f => f.Name)`: a stable sort, here by insertion. */
  function SortByName(s: seq<FieldDef>): (r: seq<FieldDef>)
    ensures multiset(r) == multiset(s)
  {
    if s == [] then []
    else
      assert s == [s[0]] + s[1..];
      Insert(s[0], SortByName(s[1..]))
  }

  lemma {:induction false} InsertSorted(f: FieldDef, s: seq<FieldDef>)
    requires SortedByName(s)
    ensures SortedByName(Insert(f, s))
  {
    if s != [] {
      if NameLe(f.name, s[0].name) {
        var r := [f] + s;
        forall i, j | 0 <= i < j < |r|
          ensures NameLe(r[i].name, r[j].name)
        {
          if i == 0 && j > 1 {
            NameLeTransitive(f.name, s[0].name, s[j - 1].name);
          }
        }
      } else {
        NameLeTotal(f.name, s[0].name);
        InsertSorted(f, s[1..]);
        HeadBelowInsert(f, s);
        var rest := Insert(f, s[1..]);
        var r := [s[0]] + rest;
        forall i, j | 0 <= i < j < |r|
          ensures NameLe(r[i].name, r[j].name)
        {
          if i == 0 {
            assert r[j] == rest[j - 1] && rest[j - 1] in rest;
          }
        }
      }
    }
  }

  /** The head of a sorted list is no greater than anything inserted behind it. */
  lemma HeadBelowInsert(f: FieldDef, s: seq<FieldDef>)
    requires SortedByName(s) && s != [] && NameLe(s[0].name, f.name)
    ensures forall x | x in Insert(f, s[1..]) :: NameLe(s[0].name, x.name)
  {
    forall x | x in Insert(f, s[1..])
      ensures NameLe(s[0].name, x.name)
    {
      assert x in multiset(Insert(f, s[1..]));
      if x != f {
        assert x in multiset(s[1..]);
        var k :| 0 <= k < |s[1..]| && s[1..][k] == x;
        assert s[k + 1] == x;
      }
    }
  }

  /** Insertion never moves f past a field of the same name. */
  lemma {:induction false} InsertWithName(f: FieldDef, s: seq<FieldDef>, n: string)
    ensures WithName(Insert(f, s), n) == (if f.name == n then [f] else []) + WithName(s, n)
  {
    if s == [] {
      WithNameCons(f, [], n);
      assert Insert(f, s) == [f] + [];
    } else if NameLe(f.name, s[0].name) {
      WithNameCons(f, s, n);
      assert Insert(f, s) == [f] + s;
    } else {
      InsertWithName(f, s[1..], n);
      InsertBehind(f, s, n);
    }
  }

  /** Inserting behind the head: the head keeps its place among the fields
      named n, and f joins them exactly when it has that name. */
  lemma InsertBehind(f: FieldDef, s: seq<FieldDef>, n: string)
    requires s != [] && !NameLe(f.name, s[0].name)
    requires WithName(Insert(f, s[1..]), n) == (if f.name == n then [f] else []) + WithName(s[1..], n)
    ensures WithName(Insert(f, s), n) == (if f.name == n then [f] else []) + WithName(s, n)
  {
    NameLeReflexive(f.name);
    var rest := Insert(f, s[1..]);
    assert Insert(f, s) == [s[0]] + rest;
    WithNameCons(s[0], rest, n);
    assert s == [s[0]] + s[1..];
    WithNameCons(s[0], s[1..], n);
    var head: seq<FieldDef> := if s[0].name == n then [s[0]] else [];
    var ws := WithName(s[1..], n);
    var wr := WithName(rest, n);
    assert WithName(Insert(f, s), n) == head + wr;
    assert WithName(s, n) == head + ws;
    if f.name == n {
      assert s[0].name != n && head == [];
      assert wr == [f] + ws;
    } else {
      assert wr == [] + ws == ws;
    }
  }

  /** The sort orders by name and keeps every field. */
  lemma {:induction false} SortByNameSorted(s: seq<FieldDef>)
    ensures SortedByName(SortByName(s))
  {
    if s != [] {
      SortByNameSorted(s[1..]);
      InsertSorted(s[0], SortByName(s[1..]));
    }
  }

  /** The sort is stable: fields of one name keep their relative order. */
  lemma {:induction false} SortByNameStable(s: seq<FieldDef>, n: string)
    ensures WithName(SortByName(s), n) == WithName(s, n)
  {
    if s != [] {
      SortByNameStable(s[1..], n);
      InsertWithName(s[0], SortByName(s[1..]), n);
      assert s == [s[0]] + s[1..];
      WithNameCons(s[0], s[1..], n);
    }
  }

  // ---- own fields ----

  /** The address of descriptor j of the array starting at first. */
  function DescriptorAt(p: PtrSize, first: int, j: nat): int {
    first + j * FieldStride(p)
  }

  /** The descriptors from index i on, stopping at fieldCount, at a null type
      pointer or at a descriptor that cannot be decoded; a fault reading a
      type pointer propagates. */
  function OwnFieldsFrom(m: Mem, p: PtrSize, t: TypeDef, first: int, i: nat): (r: Result<seq<FieldDef>>)
    ensures r.Err? ==> r.error.ReadFault?
    ensures r.Ok? ==> i + |r.value| <= t.fieldCount || r.value == []
    decreases t.fieldCount - i
  {
    if i >= t.fieldCount then Ok([])
    else
      var a := DescriptorAt(p, first, i);
      var typeInfo :- ReadPtr(m, p, a);
      if typeInfo == 0 then Ok([])
      else
        match DecodeField(m, p, Some(t), a)
        case Err(_) => Ok([])
        case Ok(f) =>
          var rest :- OwnFieldsFrom(m, p, t, first, i + 1);
          Ok([f] + rest)
  }

  /** Each own field sits at its index's descriptor slot, is declared on t
      and has a non-null type. */
  lemma {:induction false} OwnFieldsFromLayout(m: Mem, p: PtrSize, t: TypeDef, first: int, i: nat)
    requires OwnFieldsFrom(m, p, t, first, i).Ok?
    ensures var fs := OwnFieldsFrom(m, p, t, first, i).value;
      forall k | 0 <= k < |fs| ::
        && fs[k].address == DescriptorAt(p, first, i + k)
        && fs[k].declaring == t
        && fs[k].typeInfo != 0
    decreases t.fieldCount - i
  {
    var fs := OwnFieldsFrom(m, p, t, first, i).value;
    OwnFieldsDecoded(m, p, t, first, i);
    forall k | 0 <= k < |fs|
      ensures fs[k].address == DescriptorAt(p, first, i + k) && fs[k].declaring == t && fs[k].typeInfo != 0
    {
      assert DescriptorHolds(m, p, t, DescriptorAt(p, first, i + k), fs[k]);
    }
  }

  /** The descriptor at a has a non-null type pointer and decodes to f. */
  predicate DescriptorHolds(m: Mem, p: PtrSize, t: TypeDef, a: int, f: FieldDef) {
    ReadPtr(m, p, a).Ok? && ReadPtr(m, p, a).value != 0 && DecodeField(m, p, Some(t), a) == Ok(f)
  }

  /** A non-empty walk from index i starts with the decode of descriptor i. */
  lemma OwnFieldsHead(m: Mem, p: PtrSize, t: TypeDef, first: int, i: nat)
    requires OwnFieldsFrom(m, p, t, first, i).Ok? && |OwnFieldsFrom(m, p, t, first, i).value| > 0
    ensures DescriptorHolds(m, p, t, DescriptorAt(p, first, i), OwnFieldsFrom(m, p, t, first, i).value[0])
    ensures OwnFieldsFrom(m, p, t, first, i + 1).Ok?
    ensures OwnFieldsFrom(m, p, t, first, i).value[1..] == OwnFieldsFrom(m, p, t, first, i + 1).value
  {
  }

  /** Each field of fs is the decode of its descriptor, counting from index i. */
  predicate FieldsAt(m: Mem, p: PtrSize, t: TypeDef, first: int, i: nat, fs: seq<FieldDef>) {
    forall k | 0 <= k < |fs| :: DescriptorHolds(m, p, t, DescriptorAt(p, first, i + k), fs[k])
  }

  lemma FieldsAtCons(m: Mem, p: PtrSize, t: TypeDef, first: int, i: nat, fs: seq<FieldDef>)
    requires fs != [] && DescriptorHolds(m, p, t, DescriptorAt(p, first, i), fs[0])
    requires FieldsAt(m, p, t, first, i + 1, fs[1..])
    ensures FieldsAt(m, p, t, first, i, fs)
  {
    forall k | 0 <= k < |fs|
      ensures DescriptorHolds(m, p, t, DescriptorAt(p, first, i + k), fs[k])
    {
      if k > 0 {
        assert fs[k] == fs[1..][k - 1] && (i + 1) + (k - 1) == i + k;
      }
    }
  }

  /** Every own field of a walk from index i is the decode of its descriptor. */
  lemma {:induction false} OwnFieldsDecoded(m: Mem, p: PtrSize, t: TypeDef, first: int, i: nat)
    requires OwnFieldsFrom(m, p, t, first, i).Ok?
    ensures FieldsAt(m, p, t, first, i, OwnFieldsFrom(m, p, t, first, i).value)
    decreases t.fieldCount - i
  {
    var fs := OwnFieldsFrom(m, p, t, first, i).value;
    if fs != [] {
      OwnFieldsHead(m, p, t, first, i);
      OwnFieldsDecoded(m, p, t, first, i + 1);
      FieldsAtCons(m, p, t, first, i, fs);
    }
  }

  function PrependFields(pre: seq<FieldDef>, r: Result<seq<FieldDef>>): Result<seq<FieldDef>> {
    if r.Ok? then Ok(pre + r.value) else r
  }

  lemma PrependFieldsNothing(r: Result<seq<FieldDef>>)
    ensures PrependFields([], r) == r
  {
    if r.Ok? {
      assert [] + r.value == r.value;
    }
  }

  lemma PrependFieldsTwice(a: seq<FieldDef>, b: seq<FieldDef>, r: Result<seq<FieldDef>>)
    ensures PrependFields(a, PrependFields(b, r)) == PrependFields(a + b, r)
  {
    if r.Ok? {
      assert a + (b + r.value) == (a + b) + r.value;
    }
  }

  /** One step of the descriptor walk: the field at index i, then the rest. */
  lemma OwnFieldsStep(m: Mem, p: PtrSize, t: TypeDef, first: int, i: nat, f: FieldDef)
    requires i < t.fieldCount
    requires ReadPtr(m, p, DescriptorAt(p, first, i)).Ok? && ReadPtr(m, p, DescriptorAt(p, first, i)).value != 0
    requires DecodeField(m, p, Some(t), DescriptorAt(p, first, i)) == Ok(f)
    ensures OwnFieldsFrom(m, p, t, first, i) == PrependFields([f], OwnFieldsFrom(m, p, t, first, i + 1))
  {
  }

  /** The walk ends at a null type pointer or an undecodable descriptor. */
  lemma OwnFieldsStop(m: Mem, p: PtrSize, t: TypeDef, first: int, i: nat)
    requires i < t.fieldCount
    requires ReadPtr(m, p, DescriptorAt(p, first, i)).Ok?
    requires ReadPtr(m, p, DescriptorAt(p, first, i)).value == 0 || DecodeField(m, p, Some(t), DescriptorAt(p, first, i)).Err?
    ensures OwnFieldsFrom(m, p, t, first, i) == Ok([])
  {
  }

  /** The descriptor loop of `GetFields`. */
  method OwnFields(m: Mem, p: PtrSize, t: TypeDef, first: int) returns (r: Result<seq<FieldDef>>)
    ensures r == OwnFieldsFrom(m, p, t, first, 0)
  {
    var fields: seq<FieldDef> := [];
    var i: nat := 0;
    PrependFieldsNothing(OwnFieldsFrom(m, p, t, first, 0));
    while i < t.fieldCount
      invariant OwnFieldsFrom(m, p, t, first, 0) == PrependFields(fields, OwnFieldsFrom(m, p, t, first, i))
      decreases t.fieldCount - i
    {
      var a := DescriptorAt(p, first, i);
      var typeInfo := ReadPtr(m, p, a);
      if typeInfo.Err? {
        return Err(typeInfo.error);
      }
      if typeInfo.value == 0 {
        OwnFieldsStop(m, p, t, first, i);
        assert fields + [] == fields;
        return Ok(fields);
      }
      var f := DecodeField(m, p, Some(t), a);
      if f.Err? {
        OwnFieldsStop(m, p, t, first, i);
        assert fields + [] == fields;
        return Ok(fields);
      }
      OwnFieldsStep(m, p, t, first, i, f.value);
      PrependFieldsTwice(fields, [f.value], OwnFieldsFrom(m, p, t, first, i + 1));
      fields := fields + [f.value];
      i := i + 1;
    }
    assert fields + [] == fields;
    return Ok(fields);
  }

  // ---- all fields ----

  /** `Fields`: a class whose descriptor pointer is null shows its parent's
      fields; otherwise its own fields and its parent's, sorted by name.
      `inProgress` holds the classes whose field list is being computed: asking
      one of them again is a reentrant lazy value, which throws. */
  function FieldsFrom(m: Mem, p: PtrSize, rs: Resolver, t: TypeDef, inProgress: set<int>): (r: Result<seq<FieldDef>>)
    decreases m.Keys - inProgress, 1
  {
    var slot := t.address + ClassFields;
    if slot in inProgress then Err(LazyReentrancy)
    else
      var first :- ReadPtr(m, p, slot);
      var own :- if first == 0 then Ok([]) else OwnFieldsFrom(m, p, t, first, 0);
      var inherited :- Inherited(m, p, rs, t, inProgress);
      if first == 0 then Ok(inherited) else Ok(SortByName(own + inherited))
  }

  /** Every field list is ordered by name. */
  lemma {:induction false} FieldsSorted(m: Mem, p: PtrSize, rs: Resolver, t: TypeDef, inProgress: set<int>)
    requires FieldsFrom(m, p, rs, t, inProgress).Ok?
    ensures SortedByName(FieldsFrom(m, p, rs, t, inProgress).value)
    decreases m.Keys - inProgress
  {
    var slot := t.address + ClassFields;
    var first := ReadPtr(m, p, slot).value;
    var parent := Parent(m, p, rs, t).value;
    if first == 0 {
      if parent.Some? {
        FieldsSorted(m, p, rs, parent.value, inProgress + {slot});
      }
    } else {
      var own := OwnFieldsFrom(m, p, t, first, 0).value;
      var inherited := Inherited(m, p, rs, t, inProgress).value;
      SortByNameSorted(own + inherited);
    }
  }

  function FieldsOf(m: Mem, p: PtrSize, rs: Resolver, t: TypeDef): Result<seq<FieldDef>> {
    FieldsFrom(m, p, rs, t, {})
  }

  /** `GetFields`: the descriptor loop, then the parent's list appended and
      the whole ordered by name. */
  method GetFields(m: Mem, p: PtrSize, rs: Resolver, t: TypeDef, inProgress: set<int>) returns (r: Result<seq<FieldDef>>)
    ensures r == FieldsFrom(m, p, rs, t, inProgress)
    decreases m.Keys - inProgress
  {
    var slot := t.address + ClassFields;
    if slot in inProgress {
      return Err(LazyReentrancy);
    }
    var first := ReadPtr(m, p, slot);
    if first.Err? {
      return Err(first.error);
    }
    var own: seq<FieldDef> := [];
    if first.value != 0 {
      var fields := OwnFields(m, p, t, first.value);
      if fields.Err? {
        return Err(fields.error);
      }
      own := fields.value;
    }
    var parent := Parent(m, p, rs, t);
    if parent.Err? {
      return Err(parent.error);
    }
    var inherited: seq<FieldDef> := [];
    if parent.value.Some? {
      var fields := GetFields(m, p, rs, parent.value.value, inProgress + {slot});
      if fields.Err? {
        return Err(fields.error);
      }
      inherited := fields.value;
    }
    if first.value == 0 {
      return Ok(inherited);
    }
    return Ok(SortByName(own + inherited));
  }

  /** A class with its own descriptors lists them together with every
      inherited field, and fields of one name keep their order: its own
      before its parent's. */
  lemma FieldsCombine(m: Mem, p: PtrSize, rs: Resolver, t: TypeDef, inProgress: set<int>, n: string)
    requires FieldsFrom(m, p, rs, t, inProgress).Ok?
    requires ReadPtr(m, p, t.address + ClassFields).Ok? && ReadPtr(m, p, t.address + ClassFields).value != 0
    ensures var first := ReadPtr(m, p, t.address + ClassFields).value;
      var own := OwnFieldsFrom(m, p, t, first, 0);
      var inherited := Inherited(m, p, rs, t, inProgress);
      && own.Ok? && inherited.Ok?
      && multiset(FieldsFrom(m, p, rs, t, inProgress).value) == multiset(own.value) + multiset(inherited.value)
      && WithName(FieldsFrom(m, p, rs, t, inProgress).value, n) == WithName(own.value, n) + WithName(inherited.value, n)
  {
    var first := ReadPtr(m, p, t.address + ClassFields).value;
    var own := OwnFieldsFrom(m, p, t, first, 0).value;
    var inherited := Inherited(m, p, rs, t, inProgress).value;
    SortByNameStable(own + inherited, n);
    WithNameAppend(own, inherited, n);
  }

  /** The parent's fields as seen from t (none without a parent). */
  function Inherited(m: Mem, p: PtrSize, rs: Resolver, t: TypeDef, inProgress: set<int>): Result<seq<FieldDef>>
    requires t.address + ClassFields in m
    decreases m.Keys - inProgress, 0
  {
    var slot := t.address + ClassFields;
    var parent :- Parent(m, p, rs, t);
    if parent.None? then Ok([])
    else if slot in inProgress then Err(LazyReentrancy)
    else FieldsFrom(m, p, rs, parent.value, inProgress + {slot})
  }

  /** A class without descriptors shows exactly its parent's fields. */
  lemma FieldsOfEmptyClass(m: Mem, p: PtrSize, rs: Resolver, t: TypeDef, inProgress: set<int>)
    requires t.address + ClassFields !in inProgress
    requires ReadPtr(m, p, t.address + ClassFields) == Ok(0)
    ensures FieldsFrom(m, p, rs, t, inProgress) == Inherited(m, p, rs, t, inProgress)
  {
    assert t.address + ClassFields in m;
    var inherited := Inherited(m, p, rs, t, inProgress);
    if inherited.Ok? {
      assert FieldsFrom(m, p, rs, t, inProgress) == Ok(inherited.value);
    } else {
      assert FieldsFrom(m, p, rs, t, inProgress) == Err(inherited.error);
    }
  }

  /** A chain of Parent links: the parent of each class is the next. */
  predicate ParentPath(m: Mem, p: PtrSize, rs: Resolver, path: seq<TypeDef>) {
    forall i | 0 <= i < |path| - 1 :: Parent(m, p, rs, path[i]) == Ok(Some(path[i + 1]))
  }

  /** c is reached from t by one or more Parent links. */
  ghost predicate Ancestor(m: Mem, p: PtrSize, rs: Resolver, t: TypeDef, c: TypeDef) {
    exists path | ParentPath(m, p, rs, path) :: |path| > 1 && path[0] == t && path[|path| - 1] == c
  }

  /** The parent of t, and every ancestor of that parent, is an ancestor of t. */
  lemma AncestorStep(m: Mem, p: PtrSize, rs: Resolver, t: TypeDef, parent: TypeDef, c: TypeDef)
    requires Parent(m, p, rs, t) == Ok(Some(parent))
    requires c == parent || Ancestor(m, p, rs, parent, c)
    ensures Ancestor(m, p, rs, t, c)
  {
    if c == parent {
      assert ParentPath(m, p, rs, [t, parent]);
    } else {
      var path :| ParentPath(m, p, rs, path) && |path| > 1 && path[0] == parent && path[|path| - 1] == c;
      var longer := [t] + path;
      forall i | 0 <= i < |longer| - 1
        ensures Parent(m, p, rs, longer[i]) == Ok(Some(longer[i + 1]))
      {
        if i > 0 {
          assert longer[i] == path[i - 1] && longer[i + 1] == path[i];
        }
      }
      assert ParentPath(m, p, rs, longer);
    }
  }

  /** Every field a class lists is declared on the class itself or on one
      of its ancestors. */
  lemma {:induction false} FieldsDeclaredOnAncestors(m: Mem, p: PtrSize, rs: Resolver, t: TypeDef, inProgress: set<int>)
    requires FieldsFrom(m, p, rs, t, inProgress).Ok?
    ensures forall f | f in FieldsFrom(m, p, rs, t, inProgress).value :: f.declaring == t || Ancestor(m, p, rs, t, f.declaring)
    decreases m.Keys - inProgress, 1
  {
    var slot := t.address + ClassFields;
    var first := ReadPtr(m, p, slot).value;
    var inherited := Inherited(m, p, rs, t, inProgress).value;
    InheritedDeclaredOnAncestors(m, p, rs, t, inProgress);
    if first != 0 {
      var own := OwnFieldsFrom(m, p, t, first, 0).value;
      OwnFieldsFromLayout(m, p, t, first, 0);
      assert FieldsFrom(m, p, rs, t, inProgress).value == SortByName(own + inherited);
      forall f | f in SortByName(own + inherited)
        ensures f.declaring == t || Ancestor(m, p, rs, t, f.declaring)
      {
        assert f in multiset(SortByName(own + inherited));
        assert f in own + inherited;
        if f in own {
          var k :| 0 <= k < |own| && own[k] == f;
        }
      }
    }
  }

  /** Every inherited field is declared on an ancestor. */
  lemma {:induction false} InheritedDeclaredOnAncestors(m: Mem, p: PtrSize, rs: Resolver, t: TypeDef, inProgress: set<int>)
    requires t.address + ClassFields in m
    requires Inherited(m, p, rs, t, inProgress).Ok?
    ensures forall f | f in Inherited(m, p, rs, t, inProgress).value :: Ancestor(m, p, rs, t, f.declaring)
    decreases m.Keys - inProgress, 0
  {
    var parent := Parent(m, p, rs, t).value;
    if parent.Some? {
      var slot := t.address + ClassFields;
      FieldsDeclaredOnAncestors(m, p, rs, parent.value, inProgress + {slot});
      forall f | f in Inherited(m, p, rs, t, inProgress).value
        ensures Ancestor(m, p, rs, t, f.declaring)
      {
        AncestorStep(m, p, rs, t, parent.value, f.declaring);
      }
    }
  }

  // ---- lookup ----

  /** `FirstOrDefault` over the field list: the first field with the given
      name and, when a class name is given, whose declaring class has that
      full name. The full name is only computed for fields of the right name. */
  function FindField(m: Mem, p: PtrSize, rs: Resolver, fields: seq<FieldDef>, name: string, cls: Option<string>): (r: Result<Option<FieldDef>>)
    ensures r.Ok? && r.value.Some? ==>
      && r.value.value in fields
      && r.value.value.name == name
      && (cls.Some? ==> FullName(m, p, rs, r.value.value.declaring) == Ok(cls.value))
    ensures r.Ok? && r.value.None? ==> forall k | 0 <= k < |fields| && fields[k].name == name ::
      cls.Some? && FullName(m, p, rs, fields[k].declaring).Ok? && FullName(m, p, rs, fields[k].declaring).value != cls.value
  {
    if fields == [] then Ok(None)
    else
      var f := fields[0];
      if f.name != name then FindField(m, p, rs, fields[1..], name, cls)
      else if cls.None? then Ok(Some(f))
      else
        var declaringName :- FullName(m, p, rs, f.declaring);
        if declaringName == cls.value then Ok(Some(f)) else FindField(m, p, rs, fields[1..], name, cls)
  }

  /** Without a class name the lookup is the first field of that name. */
  lemma {:induction false} FindFieldByName(m: Mem, p: PtrSize, rs: Resolver, fields: seq<FieldDef>, name: string)
    ensures FindField(m, p, rs, fields, name, None) ==
      if WithName(fields, name) == [] then Ok(None) else Ok(Some(WithName(fields, name)[0]))
  {
    if fields != [] {
      FindFieldByName(m, p, rs, fields[1..], name);
    }
  }

  /** Every field of the name before position k is passed over by a
      class-qualified lookup: its declaring class's full name reads, and it is
      another class's. */
  ghost predicate PassedOver(m: Mem, p: PtrSize, rs: Resolver, fields: seq<FieldDef>, name: string, cls: string, k: int)
    requires 0 <= k <= |fields|
  {
    forall j | 0 <= j < k && fields[j].name == name ::
      FullName(m, p, rs, fields[j].declaring).Ok? && FullName(m, p, rs, fields[j].declaring).value != cls
  }

  /** A class-qualified lookup stops at the first field of the name whose
      declaring class does not read as another class: a field found is that
      first match, and a failure is the full-name error of that field. */
  lemma {:induction false} FindFieldFirst(m: Mem, p: PtrSize, rs: Resolver, fields: seq<FieldDef>, name: string, cls: string)
    ensures var r := FindField(m, p, rs, fields, name, Some(cls));
      r.Ok? && r.value.Some? ==> exists k | 0 <= k < |fields| && PassedOver(m, p, rs, fields, name, cls, k) ::
        fields[k] == r.value.value && FullName(m, p, rs, fields[k].declaring) == Ok(cls)
    ensures var r := FindField(m, p, rs, fields, name, Some(cls));
      r.Err? ==> exists k | 0 <= k < |fields| && PassedOver(m, p, rs, fields, name, cls, k) ::
        fields[k].name == name && FullName(m, p, rs, fields[k].declaring) == Err(r.error)
  {
    if fields != [] {
      var r := FindField(m, p, rs, fields, name, Some(cls));
      var f := fields[0];
      assert PassedOver(m, p, rs, fields, name, cls, 0);
      if f.name != name || (FullName(m, p, rs, f.declaring).Ok? && FullName(m, p, rs, f.declaring).value != cls) {
        var tail := fields[1..];
        FindFieldFirst(m, p, rs, tail, name, cls);
        assert r == FindField(m, p, rs, tail, name, Some(cls));
        if r.Err? || (r.Ok? && r.value.Some?) {
          var k :| 0 <= k < |tail| && PassedOver(m, p, rs, tail, name, cls, k) &&
            (if r.Err? then tail[k].name == name && FullName(m, p, rs, tail[k].declaring) == Err(r.error)
             else tail[k] == r.value.value && FullName(m, p, rs, tail[k].declaring) == Ok(cls));
          PassedOverCons(m, p, rs, fields, name, cls, k);
          assert fields[k + 1] == tail[k];
        }
      }
    }
  }

  /** Passing over the head and then k fields of the tail is passing over
      k + 1 fields. */
  lemma PassedOverCons(m: Mem, p: PtrSize, rs: Resolver, fields: seq<FieldDef>, name: string, cls: string, k: nat)
    requires k < |fields|
    requires fields[0].name != name || (FullName(m, p, rs, fields[0].declaring).Ok? && FullName(m, p, rs, fields[0].declaring).value != cls)
    requires PassedOver(m, p, rs, fields[1..], name, cls, k)
    ensures PassedOver(m, p, rs, fields, name, cls, k + 1)
  {
    forall j | 0 <= j < k + 1 && fields[j].name == name
      ensures FullName(m, p, rs, fields[j].declaring).Ok? && FullName(m, p, rs, fields[j].declaring).value != cls
    {
      if j > 0 {
        assert fields[j] == fields[1..][j - 1];
      }
    }
  }

  /** A lookup that passes over every field finds nothing. */
  lemma {:induction false} FindFieldNone(m: Mem, p: PtrSize, rs: Resolver, fields: seq<FieldDef>, name: string, cls: string)
    requires PassedOver(m, p, rs, fields, name, cls, |fields|)
    ensures FindField(m, p, rs, fields, name, Some(cls)) == Ok(None)
  {
    if fields != [] {
      assert PassedOver(m, p, rs, fields[1..], name, cls, |fields| - 1) by {
        forall j | 0 <= j < |fields| - 1 && fields[1..][j].name == name
          ensures FullName(m, p, rs, fields[1..][j].declaring).Ok? && FullName(m, p, rs, fields[1..][j].declaring).value != cls
        {
          assert fields[1..][j] == fields[j + 1];
        }
      }
      FindFieldNone(m, p, rs, fields[1..], name, cls);
    }
  }

  /** `GetField(fieldName, typeFullName)`. */
  function GetField(m: Mem, p: PtrSize, rs: Resolver, t: TypeDef, name: string, cls: Option<string>): Result<Option<FieldDef>> {
    var fields :- FieldsOf(m, p, rs, t);
    FindField(m, p, rs, fields, name, cls)
  }

  /** A field declared on the class itself hides every inherited field of the
      same name: the lookup by name finds the class's own first field. */
  lemma OwnFieldShadowsInherited(m: Mem, p: PtrSize, rs: Resolver, t: TypeDef, name: string)
    requires FieldsOf(m, p, rs, t).Ok?
    requires ReadPtr(m, p, t.address + ClassFields).Ok? && ReadPtr(m, p, t.address + ClassFields).value != 0
    requires var own := OwnFieldsFrom(m, p, t, ReadPtr(m, p, t.address + ClassFields).value, 0);
      own.Ok? && WithName(own.value, name) != []
    ensures var own := OwnFieldsFrom(m, p, t, ReadPtr(m, p, t.address + ClassFields).value, 0).value;
      && GetField(m, p, rs, t, name, None) == Ok(Some(WithName(own, name)[0]))
      && GetField(m, p, rs, t, name, None).value.value.declaring == t
  {
    var first := ReadPtr(m, p, t.address + ClassFields).value;
    var own := OwnFieldsFrom(m, p, t, first, 0).value;
    FieldsCombine(m, p, rs, t, {}, name);
    FindFieldByName(m, p, rs, FieldsOf(m, p, rs, t).value, name);
    var inherited := Inherited(m, p, rs, t, {}).value;
    assert (WithName(own, name) + WithName(inherited, name))[0] == WithName(own, name)[0];
    WithNameFrom(own, name);
    OwnFieldsFromLayout(m, p, t, first, 0);
  }

  /** Every field WithName picks comes from the list. */
  lemma {:induction false} WithNameFrom(s: seq<FieldDef>, n: string)
    ensures forall k | 0 <= k < |WithName(s, n)| :: WithName(s, n)[k] in s
  {
    if s != [] {
      WithNameFrom(s[1..], n);
      assert s == [s[0]] + s[1..];
      WithNameCons(s[0], s[1..], n);
    }
  }

  /** A class with no field of that name among its own looks it up in its
      parent's list. */
  lemma MissingOwnFieldIsInherited(m: Mem, p: PtrSize, rs: Resolver, t: TypeDef, name: string)
    requires FieldsOf(m, p, rs, t).Ok?
    requires ReadPtr(m, p, t.address + ClassFields).Ok? && ReadPtr(m, p, t.address + ClassFields).value != 0
    requires var own := OwnFieldsFrom(m, p, t, ReadPtr(m, p, t.address + ClassFields).value, 0);
      own.Ok? && WithName(own.value, name) == []
    ensures Inherited(m, p, rs, t, {}).Ok?
    ensures GetField(m, p, rs, t, name, None) == FindField(m, p, rs, Inherited(m, p, rs, t, {}).value, name, None)
  {
    FieldsCombine(m, p, rs, t, {}, name);
    FindFieldByName(m, p, rs, FieldsOf(m, p, rs, t).value, name);
    FindFieldByName(m, p, rs, Inherited(m, p, rs, t, {}).value, name);
    assert [] + WithName(Inherited(m, p, rs, t, {}).value, name) == WithName(Inherited(m, p, rs, t, {}).value, name);
  }

  // ---- static values ----

  /** `GetStaticValue`: the field of that name declared on a class with this
      class's full name must exist, be static and not be constant; its value
      lies at its offset from the static data of the class's vtable.
      Whether a field type is static or constant is answered by the type
      information at `typeInfo`, given here as predicates over that address. */
  function GetStaticValue(m: Mem, p: PtrSize, rs: Resolver, isStatic: int -> bool, isConstant: int -> bool,
                          t: TypeDef, name: string): (r: Result<int>)
    ensures r.Ok? ==> FullName(m, p, rs, t).Ok? && GetField(m, p, rs, t, name, Some(FullName(m, p, rs, t).value)).Ok?
    ensures r.Ok? ==>
      var g := GetField(m, p, rs, t, name, Some(FullName(m, p, rs, t).value)).value;
      && g.Some?
      && g.value.name == name
      && FullName(m, p, rs, g.value.declaring) == FullName(m, p, rs, t)
      && isStatic(g.value.typeInfo) && !isConstant(g.value.typeInfo)
      && ReadPtr(m, p, t.vtable + VTableStaticData).Ok?
      && r.value == ValueAddress(g.value, ReadPtr(m, p, t.vtable + VTableStaticData).value)
    ensures FullName(m, p, rs, t).Ok? ==>
      var g := GetField(m, p, rs, t, name, Some(FullName(m, p, rs, t).value));
      && (g == Ok(None) ==> r == Err(FieldNotFound(name)))
      && (g.Ok? && g.value.Some? && !isStatic(g.value.value.typeInfo) ==> r == Err(NotStatic(name)))
      && (g.Ok? && g.value.Some? && isStatic(g.value.value.typeInfo) && isConstant(g.value.value.typeInfo) ==> r == Err(IsConstant(name)))
    ensures FullName(m, p, rs, t).Err? ==> r == Err(FullName(m, p, rs, t).error)
    ensures FullName(m, p, rs, t).Ok? && GetField(m, p, rs, t, name, Some(FullName(m, p, rs, t).value)).Err? ==>
      r == Err(GetField(m, p, rs, t, name, Some(FullName(m, p, rs, t).value)).error)
    ensures forall f: FieldDef | FullName(m, p, rs, t).Ok? && GetField(m, p, rs, t, name, Some(FullName(m, p, rs, t).value)) == Ok(Some(f))
                       && isStatic(f.typeInfo) && !isConstant(f.typeInfo) ::
      var staticData := ReadPtr(m, p, t.vtable + VTableStaticData);
      && (staticData.Err? ==> r == Err(staticData.error))
      && (staticData.Ok? ==> r == Ok(ValueAddress(f, staticData.value)))
  {
    var fullName :- FullName(m, p, rs, t);
    var found :- GetField(m, p, rs, t, name, Some(fullName));
    if found.None? then Err(FieldNotFound(name))
    else
      var field := found.value;
      if !isStatic(field.typeInfo) then Err(NotStatic(name))
      else if isConstant(field.typeInfo) then Err(IsConstant(name))
      else
        var staticData :- ReadPtr(m, p, t.vtable + VTableStaticData);
        Ok(ValueAddress(field, staticData))
  }
}
