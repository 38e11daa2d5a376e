/** Member types of UEFI protocols: their symbols, sizes and alignments on X64. */
module Types {
  import opened Bytes

  datatype Ty = P | U8 | U16 | U32 | U64 | I8 | I16 | I32 | I64 | H | E | B {
    /** TYPE_INFO[type][:size] */
    function Size(): (n: nat)
      ensures n in {1, 2, 4, 8}
    {
      match this
      case U8 | I8 | B => 1
      case U16 | I16 => 2
      case U32 | I32 => 4
      case P | U64 | I64 | H | E => 8
    }

    /** TYPE_INFO[type][:alignment]: on X64 every type is aligned to its size. */
    function Alignment(): (n: nat)
      ensures n in {1, 2, 4, 8}
    {
      Size()
    }
  }

  const ALL: seq<Ty> := [P, U8, U16, U32, U64, I8, I16, I32, I64, H, E, B]

  const TYPES: seq<string> := ["p", "u8", "u16", "u32", "u64", "i8", "i16", "i32", "i64", "h", "e", "b"]

  const LONG_NAME_TYPES: seq<string> :=
    ["pointer", "uint8", "uint16", "uint32", "uint64", "int8", "int16", "int32", "int64",
     "handle", "efi_status", "boolean"]

  /** Where `sym` stands in `list`; `None` if it is not there. */
  function Index(list: seq<string>, sym: string): (r: Option<nat>)
    ensures r.Some? ==> r.value < |list| && list[r.value] == sym
    ensures r.None? ==> sym !in list
  {
    if list == [] then None
    else if list[0] == sym then Some(0)
    else match Index(list[1..], sym)
         case Some(i) => Some(i + 1)
         case None => None
  }

  /** The short symbol of a long one; any other symbol is left as it is. */
  function NormalizeArgType(sym: string): string {
    match Index(LONG_NAME_TYPES, sym)
    case Some(i) => TYPES[i]
    case None => sym
  }

  predicate IsType(sym: string) {
    sym in TYPES || sym in LONG_NAME_TYPES
  }

  /** The type of a short symbol. */
  function TypeOf(sym: string): (r: Option<Ty>)
    ensures r.None? <==> sym !in TYPES
  {
    match Index(TYPES, sym)
    case Some(i) => Some(ALL[i])
    case None => None
  }

  /** Every accepted symbol, long or short, normalises to the symbol of a type. */
  lemma NormalizedIsType(sym: string)
    ensures IsType(sym) <==> TypeOf(NormalizeArgType(sym)).Some?
    ensures sym !in LONG_NAME_TYPES ==> NormalizeArgType(sym) == sym
  {
  }

  /** Both symbols of a type, and its size in bytes, which is its alignment too. */
  predicate IsRow(short: string, long: string, ty: Ty, bytes: nat) {
    && TypeOf(NormalizeArgType(short)) == TypeOf(NormalizeArgType(long)) == Some(ty)
    && ty.Size() == ty.Alignment() == bytes
  }

  lemma RowAt(i: nat, short: string, long: string, ty: Ty, bytes: nat)
    requires i < 12 && |TYPES| == |LONG_NAME_TYPES| == |ALL| == 12
    requires TYPES[i] == short && LONG_NAME_TYPES[i] == long && ALL[i] == ty && ty.Size() == bytes
    ensures IsRow(short, long, ty, bytes)
  {
    SpellingsAgree(i);
    hide TypeOf, NormalizeArgType;
  }

  /** The unsigned types of the UEFI Specification on X64. */
  lemma UnsignedTypes()
    ensures IsRow("u8", "uint8", U8, 1) && IsRow("u16", "uint16", U16, 2)
    ensures IsRow("u32", "uint32", U32, 4) && IsRow("u64", "uint64", U64, 8)
  {
    hide IsRow;
    RowAt(1, "u8", "uint8", U8, 1);
    RowAt(2, "u16", "uint16", U16, 2);
    RowAt(3, "u32", "uint32", U32, 4);
    RowAt(4, "u64", "uint64", U64, 8);
  }

  /** The signed ones. */
  lemma SignedTypes()
    ensures IsRow("i8", "int8", I8, 1) && IsRow("i16", "int16", I16, 2)
    ensures IsRow("i32", "int32", I32, 4) && IsRow("i64", "int64", I64, 8)
  {
    hide IsRow;
    RowAt(5, "i8", "int8", I8, 1);
    RowAt(6, "i16", "int16", I16, 2);
    RowAt(7, "i32", "int32", I32, 4);
    RowAt(8, "i64", "int64", I64, 8);
  }

  /** The others. */
  lemma OtherTypes()
    ensures IsRow("p", "pointer", P, 8) && IsRow("h", "handle", H, 8)
    ensures IsRow("e", "efi_status", E, 8) && IsRow("b", "boolean", B, 1)
  {
    hide IsRow;
    RowAt(0, "p", "pointer", P, 8);
    RowAt(9, "h", "handle", H, 8);
    RowAt(10, "e", "efi_status", E, 8);
    RowAt(11, "b", "boolean", B, 1);
  }

  /** The two spellings at one place of the lists name the same type. */
  lemma SpellingsAgree(i: nat)
    requires i < 12
    ensures |TYPES| == |LONG_NAME_TYPES| == |ALL| == 12
    ensures TypeOf(NormalizeArgType(TYPES[i])) == TypeOf(NormalizeArgType(LONG_NAME_TYPES[i])) == Some(ALL[i])
  {
    hide Index;
    IndexOf(TYPES, i);
    IndexOf(LONG_NAME_TYPES, i);
    assert TYPES[i] !in LONG_NAME_TYPES;
  }

  lemma {:induction false} IndexOf(list: seq<string>, i: nat)
    requires i < |list| && forall j :: 0 <= j < i ==> list[j] != list[i]
    ensures Index(list, list[i]) == Some(i)
  {
    if i > 0 {
      IndexOf(list[1..], i - 1);
    }
  }
}
