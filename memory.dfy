/** Foreign process memory as seen by the inspector: a partial map from
    address to byte, with the typed little-endian reads the decoder uses.
    A read that touches an unmapped byte fails, as a remote read of an
    unreadable page throws. */
module Memory {

  newtype byte = x: int | 0 <= x < 256

  /** The target process's address space (or a dumped module image). */
  type Mem = map<int, byte>

  /** The target's pointer width in bytes: 4 on x86, 8 on x64. */
  type PtrSize = p: int | p == 4 || p == 8 witness 8

  datatype Option<+T> = None | Some(value: T)

  /** The failures the decoder can report. */
  datatype Error =
    | ReadFault(at: int)
    | ModuleNotFound
    | SymbolNotFound
    | AssemblyListNotFound
    | EmptyAssemblyList
    | AssemblyNotFound(name: string)
    | EmptyTypeName
    | NullDeclaringType
    | DuplicateFullName(fullName: string)
    | FieldNotFound(field: string)
    | NotStatic(field: string)
    | IsConstant(field: string)
    | NonTerminating
    | LazyReentrancy

  datatype Result<+T> = Ok(value: T) | Err(error: Error) {
    predicate IsFailure() { Err? }
    function PropagateFailure<U>(): Result<U> requires Err? { Err(error) }
    function Extract(): T requires Ok? { value }
  }

  const TwoTo32: int := 0x1_0000_0000
  const TwoTo64: int := 0x1_0000_0000_0000_0000

  function Pow256(n: nat): (r: nat)
    ensures r > 0
  {
    if n == 0 then 1 else 256 * Pow256(n - 1)
  }

  predicate Mapped(m: Mem, a: int, n: nat) {
    forall i | a <= i < a + n :: i in m
  }

  /** The n bytes at a, or a fault at the first of them that is unmapped. */
  function ReadBytes(m: Mem, a: int, n: nat): (r: Result<seq<byte>>)
    ensures r.Err? ==> r.error.ReadFault?
    ensures r.Ok? ==> |r.value| == n
    decreases n
  {
    if n == 0 then Ok([])
    else if a !in m then Err(ReadFault(a))
    else
      var rest :- ReadBytes(m, a + 1, n - 1);
      Ok([m[a]] + rest)
  }

  /** A read succeeds exactly when every byte is mapped, and returns them. */
  lemma {:induction false} ReadBytesMapped(m: Mem, a: int, n: nat)
    ensures ReadBytes(m, a, n).Ok? <==> Mapped(m, a, n)
    ensures ReadBytes(m, a, n).Ok? ==> forall i | 0 <= i < n :: ReadBytes(m, a, n).value[i] == m[a + i]
    decreases n
  {
    if n > 0 {
      ReadBytesMapped(m, a + 1, n - 1);
      if a in m && ReadBytes(m, a + 1, n - 1).Ok? {
        var rest := ReadBytes(m, a + 1, n - 1).value;
        forall i | 1 <= i < n
          ensures ReadBytes(m, a, n).value[i] == rest[i - 1] && a + i == (a + 1) + (i - 1)
        {
        }
      }
    }
  }

  /** Unsigned little-endian value of a byte sequence. */
  function LittleEndian(s: seq<byte>): (v: nat)
    ensures v < Pow256(|s|)
  {
    if s == [] then 0 else s[0] as nat + 256 * LittleEndian(s[1..])
  }

  /** The n-byte little-endian encoding of v, the inverse of LittleEndian. */
  function ToLittleEndian(v: nat, n: nat): (s: seq<byte>)
    requires v < Pow256(n)
    ensures |s| == n
  {
    if n == 0 then [] else [(v % 256) as byte] + ToLittleEndian(v / 256, n - 1)
  }

  lemma {:induction false} LittleEndianRoundTrip(v: nat, n: nat)
    requires v < Pow256(n)
    ensures LittleEndian(ToLittleEndian(v, n)) == v
  {
    if n > 0 {
      var s := ToLittleEndian(v, n);
      assert s[1..] == ToLittleEndian(v / 256, n - 1);
      LittleEndianRoundTrip(v / 256, n - 1);
    }
  }

  lemma {:induction false} ToLittleEndianRoundTrip(s: seq<byte>)
    ensures ToLittleEndian(LittleEndian(s), |s|) == s
  {
    if s != [] {
      var rest := LittleEndian(s[1..]);
      DivMod256(s[0] as nat, rest);
      ToLittleEndianRoundTrip(s[1..]);
      assert ToLittleEndian(LittleEndian(s), |s|) == [s[0]] + ToLittleEndian(rest, |s| - 1);
      assert s == [s[0]] + s[1..];
    }
  }

  /** A low byte and the value above it are recovered by % 256 and / 256. */
  lemma DivMod256(b: nat, rest: nat)
    requires b < 256
    ensures (b + 256 * rest) % 256 == b && (b + 256 * rest) / 256 == rest
  {
  }

  /** Two's-complement reinterpretation of an unsigned value of the given width. */
  function Signed(u: nat, modulus: nat): (r: int)
    requires u < modulus && modulus % 2 == 0
    ensures -(modulus / 2) <= r < modulus / 2
    ensures (r - u) % modulus == 0
  {
    if u >= modulus / 2 then
      ModulusNegated(modulus);
      u - modulus
    else
      ModulusZero(modulus);
      u
  }

  lemma ModulusNegated(n: int)
    requires n > 0
    ensures (-n) % n == 0
  {
    assert -n == (-1) * n;
  }

  lemma ModulusZero(n: int)
    requires n > 0
    ensures 0 % n == 0
  {
  }

  /** Truncation to 32 bits, as a C# (uint) cast. */
  function U32(x: int): (r: int)
    ensures 0 <= r < TwoTo32 && (r - x) % TwoTo32 == 0
  {
    x % TwoTo32
  }

  function ReadUnsigned(m: Mem, a: int, n: nat): (r: Result<nat>)
    ensures r.Err? ==> r.error.ReadFault?
    ensures r.Ok? ==> r.value < Pow256(n)
  {
    var b :- ReadBytes(m, a, n);
    Ok(LittleEndian(b))
  }

  function ReadByte(m: Mem, a: int): (r: Result<nat>)
    ensures r.Ok? <==> a in m
    ensures r.Ok? ==> r.value == m[a] as nat
  {
    ReadBytesMapped(m, a, 1);
    var b :- ReadBytes(m, a, 1);
    Ok(LittleEndian(b))
  }

  function ReadU16(m: Mem, a: int): (r: Result<nat>)
    ensures r.Err? ==> r.error.ReadFault?
    ensures r.Ok? ==> r.value < 0x1_0000
  {
    ReadUnsigned(m, a, 2)
  }

  function ReadU32(m: Mem, a: int): (r: Result<nat>)
    ensures r.Err? ==> r.error.ReadFault?
    ensures r.Ok? ==> r.value < TwoTo32
  {
    ReadUnsigned(m, a, 4)
  }

  function ReadI32(m: Mem, a: int): (r: Result<int>)
    ensures r.Err? ==> r.error.ReadFault?
    ensures r.Ok? ==> -0x8000_0000 <= r.value < 0x8000_0000
  {
    var u :- ReadU32(m, a);
    Ok(Signed(u, TwoTo32))
  }

  function ReadI64(m: Mem, a: int): (r: Result<int>)
    ensures r.Err? ==> r.error.ReadFault?
    ensures r.Ok? ==> -0x8000_0000_0000_0000 <= r.value < 0x8000_0000_0000_0000
  {
    assert Pow256(8) == TwoTo64;
    var u :- ReadUnsigned(m, a, 8);
    Ok(Signed(u, TwoTo64))
  }

  /** A pointer-sized read: a signed 64-bit value on x64 (the C# `long`), an
      unsigned 32-bit value on x86. A successful read proves its address mapped. */
  function ReadPtr(m: Mem, p: PtrSize, a: int): (r: Result<int>)
    ensures r.Err? ==> r.error.ReadFault?
    ensures r.Ok? ==> a in m
  {
    if p == 8 then ReadI64(m, a) else ReadU32(m, a)
  }

  /** The character an ASCII decode gives a byte: the byte itself below
      0x80, and the replacement '?' for every byte above, as .NET's
      `Encoding.ASCII` decodes. */
  function AsciiChar(b: byte): (c: char)
    ensures c < 128 as char
  {
    if b < 0x80 then (b as int) as char else '?'
  }

  /** An ASCII string of at most `limit` characters at a, ending at the first
      NUL byte; a string still running at `limit` is cut there. */
  function ReadCString(m: Mem, a: int, limit: nat): (r: Result<string>)
    ensures r.Err? ==> r.error.ReadFault?
    ensures r.Ok? ==> |r.value| <= limit
    decreases limit
  {
    if limit == 0 then Ok([])
    else if a !in m then Err(ReadFault(a))
    else if m[a] == 0 then Ok([])
    else
      match ReadCString(m, a + 1, limit - 1)
      case Err(e) => Err(e)
      case Ok(rest) => Ok([AsciiChar(m[a])] + rest)
  }

  /** The string read is the non-NUL bytes from a onwards, one ASCII
      character per byte. */
  lemma {:induction false} ReadCStringChars(m: Mem, a: int, limit: nat)
    requires ReadCString(m, a, limit).Ok?
    ensures CharsAt(m, a, ReadCString(m, a, limit).value)
    decreases limit
  {
    if limit > 0 && a in m && m[a] != 0 {
      ReadCStringChars(m, a + 1, limit - 1);
      CStringCons(m, a, ReadCString(m, a + 1, limit - 1).value);
    }
  }

  /** The byte at a is mapped, is not NUL, and decodes as the character c:
      itself when below 0x80, '?' otherwise. */
  predicate CharAt(m: Mem, a: int, c: char) {
    && a in m && m[a] != 0
    && (m[a] < 0x80 ==> c == (m[a] as int) as char)
    && (m[a] >= 0x80 ==> c == '?')
  }

  /** The characters of s are the bytes from a onwards. */
  predicate CharsAt(m: Mem, a: int, s: string) {
    forall i | 0 <= i < |s| :: CharAt(m, a + i, s[i])
  }

  /** The characters at a + 1 onwards, preceded by the non-NUL byte at a,
      are the characters at a onwards. */
  lemma CStringCons(m: Mem, a: int, rest: string)
    requires a in m && CharAt(m, a, AsciiChar(m[a])) && CharsAt(m, a + 1, rest)
    ensures CharsAt(m, a, [AsciiChar(m[a])] + rest)
  {
    var r := [AsciiChar(m[a])] + rest;
    forall i | 0 <= i < |r|
      ensures CharAt(m, a + i, r[i])
    {
      if i > 0 {
        assert r[i] == rest[i - 1] && a + i == (a + 1) + (i - 1);
      }
    }
  }


  /** A NUL-terminated ASCII string with no length bound: |m| + 1 characters
      can never all be mapped, so the bound only stands in for "until NUL". */
  function ReadString(m: Mem, a: int): (r: Result<string>)
    ensures r.Err? ==> r.error.ReadFault?
  {
    ReadCString(m, a, |m| + 1)
  }

  /** The string whose address is stored in the pointer slot at a. */
  function ReadStringPtr(m: Mem, p: PtrSize, a: int): (r: Result<string>)
    ensures r.Err? ==> r.error.ReadFault?
  {
    var s :- ReadPtr(m, p, a);
    ReadString(m, s)
  }

  /** A dumped module image (a byte array indexed from 0) seen as memory. */
  function DumpMemory(d: seq<byte>): (m: Mem)
    ensures forall i | 0 <= i < |d| :: i in m && m[i] == d[i]
    ensures forall i | i in m :: 0 <= i < |d|
  {
    map i | 0 <= i < |d| :: d[i]
  }

  /** Some element of a non-empty set: the order in which a hash table
      enumerates its entries is not part of the model. */
  method Pick<T>(s: set<T>) returns (x: T)
    requires s != {}
    ensures x in s
  {
    x :| x in s;
  }
}
