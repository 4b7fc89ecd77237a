/** A decoded `_MonoClassField` descriptor and the address its value is read
    from. */
module Fields {
  import opened Memory
  import opened Layout
  import opened Types

  /** A field descriptor: the type-info pointer, the name and the byte offset
      inside an instance of the declaring class. */
  datatype FieldDef = FieldDef(
    address: int,
    declaring: TypeDef,
    typeInfo: int,
    name: string,
    offset: int)

  /** The FieldDefinition constructor: a missing declaring class is rejected
      before anything is read; then the three descriptor members are read. */
  function DecodeField(m: Mem, p: PtrSize, declaring: Option<TypeDef>, a: int): (r: Result<FieldDef>)
    ensures declaring.None? ==> r == Err(NullDeclaringType)
    ensures r.Ok? ==> r.value.address == a && Some(r.value.declaring) == declaring
    ensures r.Ok? ==>
      && ReadPtr(m, p, a + FieldType) == Ok(r.value.typeInfo)
      && ReadStringPtr(m, p, a + FieldName) == Ok(r.value.name)
      && ReadI32(m, a + FieldOffset) == Ok(r.value.offset)
    ensures r.Err? && declaring.Some? ==> r.error.ReadFault?
  {
    if declaring.None? then Err(NullDeclaringType)
    else
      var typeInfo :- ReadPtr(m, p, a + FieldType);
      var name :- ReadStringPtr(m, p, a + FieldName);
      var offset :- ReadI32(m, a + FieldOffset);
      Ok(FieldDef(a, declaring.value, typeInfo, name, offset))
  }

  /** Decoding fails only for a missing declaring class or an unreadable
      descriptor member. */
  lemma DecodeFieldSucceeds(m: Mem, p: PtrSize, declaring: Option<TypeDef>, a: int)
    ensures DecodeField(m, p, declaring, a).Ok? <==>
      declaring.Some? && ReadPtr(m, p, a + FieldType).Ok? && ReadStringPtr(m, p, a + FieldName).Ok? && ReadI32(m, a + FieldOffset).Ok?
  {
  }

  /** The offset actually applied to an instance address: a value type's
      instance is addressed past its object header, so 8 bytes less. */
  function EffectiveOffset(f: FieldDef): int {
    f.offset - (if f.declaring.IsValueType() then ValueTypeHeader else 0)
  }

  /** `GetValue`: the address handed to the field's type for reading, the
      instance address plus the effective offset, truncated to 32 bits by
      the `(uint)` cast. */
  function ValueAddress(f: FieldDef, instance: int): (r: int)
    ensures 0 <= r < TwoTo32
    ensures (r - (instance + f.offset)) % TwoTo32 == (if f.declaring.IsValueType() then TwoTo32 - ValueTypeHeader else 0)
  {
    U32(instance + EffectiveOffset(f))
  }

  /** Without wrap-around the value sits exactly at instance + offset, less
      the header of a value type. */
  lemma ValueAddressNoWrap(f: FieldDef, instance: int)
    requires 0 <= instance + EffectiveOffset(f) < TwoTo32
    ensures ValueAddress(f, instance) == instance + f.offset - (if f.declaring.IsValueType() then 8 else 0)
  {
  }

  /** The same field declared on a value type reads 8 bytes lower (modulo
      2^32) than on a reference type. */
  lemma ValueTypeShift(f: FieldDef, g: FieldDef, instance: int)
    requires f.offset == g.offset
    requires f.declaring.IsValueType() && !g.declaring.IsValueType()
    ensures U32(ValueAddress(f, instance) + ValueTypeHeader) == ValueAddress(g, instance)
  {
    var x := instance + f.offset;
    assert ValueAddress(f, instance) == U32(x - 8);
    assert ValueAddress(g, instance) == U32(x);
    ModuloShift(x - 8, 8);
  }

  lemma ModuloShift(x: int, d: int)
    ensures U32(U32(x) + d) == U32(x + d)
  {
    var q := x / TwoTo32;
    assert x == q * TwoTo32 + U32(x);
    assert x + d == (U32(x) + d) + q * TwoTo32;
    ModuloMultiple(U32(x) + d, q);
  }

  lemma ModuloMultiple(y: int, q: int)
    ensures (y + q * TwoTo32) % TwoTo32 == y % TwoTo32
  {
  }

  /** Truncating the instance address first (a 32-bit pointer) does not
      change where the value is read. */
  lemma ValueAddressOfTruncated(f: FieldDef, instance: int)
    ensures ValueAddress(f, U32(instance)) == ValueAddress(f, instance)
  {
    ModuloShift(instance, EffectiveOffset(f));
  }
}
