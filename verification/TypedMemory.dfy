/** Typed access to bytes in memory: get_raw_value, set_raw_value and the argument casts. */
module TypedMemory {
  import opened Bytes
  import opened Types
  import Integers

  /** A Ruby value: a Fixnum, or an object that holds 64 raw bits. */
  datatype Value = Fixnum(n: int) | Status(raw: nat) | Pointer(raw: nat) | Handle(raw: nat)

  /** The kind of value a type is set from; the C code takes it for granted. */
  predicate Matches(ty: Ty, v: Value) {
    match ty
    case E => v.Status? && v.raw < 0x1_0000_0000_0000_0000
    case P => v.Pointer? && v.raw < 0x1_0000_0000_0000_0000
    case H => v.Handle? && v.raw < 0x1_0000_0000_0000_0000
    case _ => v.Fixnum? && IsFixnum(v.n)
  }

  function Bits(v: Value): int {
    if v.Fixnum? then v.n else v.raw
  }

  /** 256 to the power `w`. */
  function Power(w: nat): (p: nat)
    ensures p > 0
  {
    if w == 0 then 1 else 256 * Power(w - 1)
  }

  /** The number that little-endian bytes denote. */
  function FromBytes(s: seq<byte>): nat {
    if s == [] then 0 else s[0] as int + 256 * FromBytes(s[1..])
  }

  /** The value of a type whose bits are `bits`. */
  function ValueOf(ty: Ty, bits: int): Value {
    match ty
    case E => Status(bits % 0x1_0000_0000_0000_0000)
    case P => Pointer(bits % 0x1_0000_0000_0000_0000)
    case H => Handle(bits % 0x1_0000_0000_0000_0000)
    case U64 | I64 => Fixnum(ToInt64(bits))
    case U32 => Fixnum(bits % 0x1_0000_0000)
    case I32 => Fixnum(ToInt32(bits))
    case U16 => Fixnum(bits % 0x1_0000)
    case I16 => Fixnum(ToInt16(bits))
    case U8 | B => Fixnum(bits % 0x100)
    case I8 => Fixnum(if bits % 0x100 < 0x80 then bits % 0x100 else bits % 0x100 - 0x100)
  }

  /** What the bytes of a member read as. */
  function Load(ty: Ty, s: seq<byte>): Value
    requires |s| == ty.Size()
  {
    ValueOf(ty, FromBytes(s))
  }

  /** The bytes a value is stored as. */
  function Image(ty: Ty, v: Value): (s: seq<byte>)
    ensures |s| == ty.Size()
  {
    Integers.LittleEndian(Bits(v), ty.Size())
  }

  /** `mem` with `bytes` at `addr`. */
  function Write(mem: seq<byte>, addr: nat, bytes: seq<byte>): (r: seq<byte>)
    requires addr + |bytes| <= |mem|
    ensures |r| == |mem|
    ensures r[addr..addr + |bytes|] == bytes
    ensures forall k :: 0 <= k < |mem| && !(addr <= k < addr + |bytes|) ==> r[k] == mem[k]
  {
    mem[..addr] + bytes + mem[addr + |bytes|..]
  }

  /** Reads a value; `None` for the type that has no branch, which raises. */
  method GetRawValue(mem: array<byte>, addr: nat, ty: Ty) returns (r: Option<Value>)
    requires addr + ty.Size() <= mem.Length
    ensures r == if ty == B then None else Some(Load(ty, mem[addr..addr + ty.Size()]))
  {
    if ty == B {
      return None;
    }
    var bits, i := 0, ty.Size();
    assert mem[addr + i..addr + ty.Size()] == [];
    while i > 0
      invariant 0 <= i <= ty.Size()
      invariant bits == FromBytes(mem[addr + i..addr + ty.Size()])
    {
      i := i - 1;
      bits := mem[addr + i] as int + 256 * bits;
      assert mem[addr + i..addr + ty.Size()][1..] == mem[addr + i + 1..addr + ty.Size()];
    }
    return Some(ValueOf(ty, bits));
  }

  /** Stores a value, least significant byte first. */
  method SetRawValue(mem: array<byte>, addr: nat, ty: Ty, v: Value) returns (ok: bool)
    requires addr + ty.Size() <= mem.Length && Matches(ty, v)
    modifies mem
    ensures ok <==> ty != B
    ensures mem[..] == if ok then Write(old(mem[..]), addr, Image(ty, v)) else old(mem[..])
  {
    if ty == B {
      return false;
    }
    StoreLittleEndian(mem, addr, Bits(v), ty.Size());
    return true;
  }

  /** Stores the low `size` bytes of `n`. */
  method StoreLittleEndian(mem: array<byte>, addr: nat, n: int, size: nat)
    requires addr + size <= mem.Length
    modifies mem
    ensures mem[..] == Write(old(mem[..]), addr, Integers.LittleEndian(n, size))
  {
    var bits, i := n, 0;
    assert mem[addr..addr] + Integers.LittleEndian(n, size) == Integers.LittleEndian(n, size);
    while i < size
      invariant 0 <= i <= size
      invariant Integers.LittleEndian(n, size) == mem[addr..addr + i] + Integers.LittleEndian(bits, size - i)
      invariant mem[..addr] == old(mem[..addr]) && mem[addr + i..] == old(mem[addr + i..])
    {
      ghost var done, rest := mem[addr..addr + i], Integers.LittleEndian(bits / 256, size - i - 1);
      assert mem[addr + i..][1..] == mem[addr + i + 1..];
      mem[addr + i] := bits % 256;
      bits, i := bits / 256, i + 1;
      assert mem[addr..addr + i] == done + [mem[addr + i - 1]];
      SeqAssoc(done, [mem[addr + i - 1]], rest);
    }
    assert mem[addr..addr + size] + [] == mem[addr..addr + size];
    assert mem[..] == mem[..addr] + mem[addr..addr + size] + mem[addr + size..];
  }

  // ---------------------------------------------------------------------------

  lemma ModSplit(n: int, k: nat)
    requires k > 0
    ensures n % (256 * k) == n % 256 + 256 * (n / 256 % k)
  {
    var q := n / 256;
    var a, b, r := q / k, q % k, n % 256;
    assert n == 256 * (k * a + b) + r == 256 * k * a + (256 * b + r);
    assert 256 * b + r < 256 * k;
    DivModUnique(n, 256 * k, a, 256 * b + r);
  }

  lemma {:induction false} BytesBack(n: int, w: nat)
    ensures FromBytes(Integers.LittleEndian(n, w)) == n % Power(w)
    decreases w
  {
    if w > 0 {
      BytesBack(n / 256, w - 1);
      ModSplit(n, Power(w - 1));
      assert Integers.LittleEndian(n, w)[1..] == Integers.LittleEndian(n / 256, w - 1);
    }
  }

  lemma Powers()
    ensures Power(1) == 0x100 && Power(2) == 0x1_0000 && Power(4) == 0x1_0000_0000
    ensures Power(8) == 0x1_0000_0000_0000_0000
  {
    assert Power(3) == 0x100_0000 && Power(5) == 0x100_0000_0000;
    assert Power(6) == 0x1_0000_0000_0000 && Power(7) == 0x100_0000_0000_0000;
  }

  lemma OnlyLowBits(ty: Ty, bits: int)
    ensures ValueOf(ty, bits % Power(ty.Size())) == ValueOf(ty, bits)
  {
    TwiceReduced(bits, Power(ty.Size()));
    Powers();
    hide Power;
    ValueOfReduced(ty, bits);
    ValueOfReduced(ty, bits % Power(ty.Size()));
    hide ValueOf;
  }

  /** The value of a type is one of the bits that fit it. */
  lemma ValueOfReduced(ty: Ty, bits: int)
    ensures ValueOf(ty, bits) == ReducedValue(ty, bits % Power(ty.Size()))
  {
    Powers();
    hide Power;
  }

  function ReducedValue(ty: Ty, m: nat): Value {
    match ty
    case E => Status(m)
    case P => Pointer(m)
    case H => Handle(m)
    case I64 | U64 => Fixnum(if m < 0x8000_0000_0000_0000 then m else m - 0x1_0000_0000_0000_0000)
    case I32 => Fixnum(if m < 0x8000_0000 then m else m - 0x1_0000_0000)
    case I16 => Fixnum(if m < 0x8000 then m else m - 0x1_0000)
    case I8 => Fixnum(if m < 0x80 then m else m - 0x100)
    case _ => Fixnum(m)
  }

  /** A stored value is read back as the value of its bits, wrapped to the type. */
  lemma LoadStored(ty: Ty, v: Value)
    ensures Load(ty, Image(ty, v)) == ValueOf(ty, Bits(v))
  {
    BytesBack(Bits(v), ty.Size());
    OnlyLowBits(ty, Bits(v));
  }

  /** The 64-bit types lose nothing, and the others exactly what does not fit. */
  lemma ExactWhenInRange(ty: Ty, v: Value)
    requires Matches(ty, v)
    ensures ty in {E, P, H, U64, I64} ==> ValueOf(ty, Bits(v)) == v
    ensures ty in {U8, U16, U32} ==> (ValueOf(ty, Bits(v)) == v <==> 0 <= v.n < Power(ty.Size()))
    ensures ty in {I8, I16, I32} ==>
              (ValueOf(ty, Bits(v)) == v <==> 0 <= 2 * v.n + Power(ty.Size()) < 2 * Power(ty.Size()))
  {
    Powers();
    hide Power;
  }

  /** The numbers of a type. */
  predicate InRange(ty: Ty, n: int) {
    match ty
    case U8 => 0 <= n < 0x100
    case U16 => 0 <= n < 0x1_0000
    case U32 => 0 <= n < 0x1_0000_0000
    case I8 => -0x80 <= n < 0x80
    case I16 => -0x8000 <= n < 0x8000
    case I32 => -0x8000_0000 <= n < 0x8000_0000
    case _ => -0x8000_0000_0000_0000 <= n < 0x8000_0000_0000_0000
  }

  /** A number that does not fit is wrapped: into the range of the type, by a multiple of 256 to its width. */
  lemma ValueIsWrapped(ty: Ty, n: int)
    requires ty in {U8, U16, U32, U64, I8, I16, I32, I64}
    ensures
      var v := ValueOf(ty, n);
      v.Fixnum? && InRange(ty, v.n) && exists k :: v.n == n + k * Power(ty.Size())
  {
    ValueOfReduced(ty, n);
    Powers();
    var p := Power(ty.Size());
    var q := n / p;
    assert n == p * q + n % p;
    hide Power, ValueOf;
    var v := ReducedValue(ty, n % p);
    assert v.n == n + -q * p || v.n == n + (-q - 1) * p;
  }

  /** Status, pointer and handle values are the 64 bits stored. */
  lemma ObjectsKeepBits(raw: nat)
    requires raw < 0x1_0000_0000_0000_0000
    ensures ValueOf(E, raw) == Status(raw) && ValueOf(P, raw) == Pointer(raw) && ValueOf(H, raw) == Handle(raw)
  {
  }

  // ---------------------------------------------------------------------------
  // Arguments and results of calls

  /** cast_to_base_type: the value in the low bytes of a zeroed 64-bit word. */
  function CastToBase(ty: Ty, v: Value): Option<nat>
    requires Matches(ty, v)
  {
    if ty == B then None else Some(Bits(v) % Power(ty.Size()))
  }

  /** cast_from_base_type: the low bytes of the word as a value of the type. */
  function CastFromBase(ty: Ty, word: nat): Option<Value> {
    if ty == B then None else Some(ValueOf(ty, word % Power(ty.Size())))
  }

  /** A result word gives the value of its low bytes, whatever the others are; a boolean cannot be passed either way. */
  lemma CastFromWord(ty: Ty, word: nat)
    ensures ty != B ==> CastFromBase(ty, word) == Some(ValueOf(ty, word))
    ensures CastFromBase(B, word) == None
  {
    OnlyLowBits(ty, word);
    hide ValueOf, Power;
  }

  lemma NoBooleanArgument(v: Value)
    requires Matches(B, v)
    ensures CastToBase(B, v) == None
  {
  }

  /** Passing a value through a 64-bit word is storing it in memory and reading it back. */
  lemma CastsAgreeWithMemory(ty: Ty, v: Value)
    requires Matches(ty, v) && ty != B
    ensures CastFromBase(ty, CastToBase(ty, v).value) == Some(Load(ty, Image(ty, v)))
    ensures CastToBase(ty, v).value == FromBytes(Image(ty, v)) < 0x1_0000_0000_0000_0000
  {
    assert CastToBase(ty, v).value == FromBytes(Image(ty, v)) by {
      BytesBack(Bits(v), ty.Size());
    }
    WordFits(ty, Bits(v));
    hide Image, FromBytes, Power;
    TwiceReduced(Bits(v), Power(ty.Size()));
    hide ValueOf;
  }

  lemma TwiceReduced(n: int, k: nat)
    requires k > 0
    ensures n % k % k == n % k
  {
  }

  lemma WordFits(ty: Ty, n: int)
    ensures n % Power(ty.Size()) < 0x1_0000_0000_0000_0000
  {
    Powers();
    hide Power;
  }
}
