/**
 The closed set of typed values of the memory ABI (`mem_value.rs`). Floating-point values
 are carried as their bit patterns; signed values are converted through two's complement.
 */
module MemValue {
  import opened Bytes

  type U8 = x: nat | x < 0x100
  type U16 = x: nat | x < 0x1_0000
  type U32 = x: nat | x < U32_LIMIT
  type U64 = x: nat | x < U64_LIMIT
  type I8 = x: int | -0x80 <= x < 0x80
  type I16 = x: int | -0x8000 <= x < 0x8000
  type I32 = x: int | -0x8000_0000 <= x < 0x8000_0000
  type I64 = x: int | -0x8000_0000_0000_0000 <= x < 0x8000_0000_0000_0000

  datatype ValType =
    | TyU8 | TyU16 | TyU32 | TyU64
    | TyI8 | TyI16 | TyI32 | TyI64
    | TyF32 | TyF64
    | TyBytes | TyCstr

  datatype Value =
    | VU8(u8: U8) | VU16(u16: U16) | VU32(u32: U32) | VU64(u64: U64)
    | VI8(i8: I8) | VI16(i16: I16) | VI32(i32: I32) | VI64(i64: I64)
    | VF32(bits32: U32) | VF64(bits64: U64)
    | VBytes(bytes: seq<Byte>) | VCstr(text: seq<Byte>)

  function FixedWidth(ty: ValType): Option<nat> {
    match ty
    case TyU8 | TyI8 => Some(1)
    case TyU16 | TyI16 => Some(2)
    case TyU32 | TyI32 | TyF32 => Some(4)
    case TyU64 | TyI64 | TyF64 => Some(8)
    case TyBytes | TyCstr => None
  }

  function Tag(ty: ValType): Byte {
    match ty
    case TyU8 => 0 case TyU16 => 1 case TyU32 => 2 case TyU64 => 3
    case TyI8 => 4 case TyI16 => 5 case TyI32 => 6 case TyI64 => 7
    case TyF32 => 8 case TyF64 => 9
    case TyBytes => 10 case TyCstr => 11
  }

  /** The tag numbering is a bijection between the types and 0..=11. */
  function FromTag(tag: Byte): (r: Option<ValType>)
    ensures forall ty :: r == Some(ty) <==> Tag(ty) == tag
    ensures r.Some? <==> tag <= 11
  {
    if tag == 0 then Some(TyU8) else if tag == 1 then Some(TyU16)
    else if tag == 2 then Some(TyU32) else if tag == 3 then Some(TyU64)
    else if tag == 4 then Some(TyI8) else if tag == 5 then Some(TyI16)
    else if tag == 6 then Some(TyI32) else if tag == 7 then Some(TyI64)
    else if tag == 8 then Some(TyF32) else if tag == 9 then Some(TyF64)
    else if tag == 10 then Some(TyBytes) else if tag == 11 then Some(TyCstr)
    else None
  }

  function TypeOf(v: Value): ValType {
    match v
    case VU8(_) => TyU8 case VU16(_) => TyU16 case VU32(_) => TyU32 case VU64(_) => TyU64
    case VI8(_) => TyI8 case VI16(_) => TyI16 case VI32(_) => TyI32 case VI64(_) => TyI64
    case VF32(_) => TyF32 case VF64(_) => TyF64
    case VBytes(_) => TyBytes case VCstr(_) => TyCstr
  }

  /** Two's complement image of `x` in an integer of `cap` values. */
  function Wrap(x: int, cap: nat): (n: nat)
    requires 0 <= x + cap && x < cap
  {
    if x < 0 then x + cap else x
  }

  /** The signed reading of an unsigned integer of `cap` values. */
  function Unwrap(n: nat, cap: nat): int {
    if 2 * n < cap then n else n - cap
  }

  function Encode(v: Value): (bs: seq<Byte>)
    ensures FixedWidth(TypeOf(v)).Some? ==> |bs| == FixedWidth(TypeOf(v)).value
  {
    match v
    case VU8(x) => LeBytes(x, 1)
    case VU16(x) => LeBytes(x, 2)
    case VU32(x) => LeBytes(x, 4)
    case VU64(x) => LeBytes(x, 8)
    case VI8(x) => LeBytes(Wrap(x, 0x100), 1)
    case VI16(x) => LeBytes(Wrap(x, 0x1_0000), 2)
    case VI32(x) => LeBytes(Wrap(x, U32_LIMIT), 4)
    case VI64(x) => LeBytes(Wrap(x, U64_LIMIT), 8)
    case VF32(b) => LeBytes(b, 4)
    case VF64(b) => LeBytes(b, 8)
    case VBytes(b) => b
    case VCstr(t) => t
  }

  /** `Value::decode` on the fixed-width types; a wrong length is refused. */
  function DecodeFixed(ty: ValType, bs: seq<Byte>): Option<Value>
    requires FixedWidth(ty).Some?
  {
    if |bs| != FixedWidth(ty).value then None else
    LeNatFits(bs);
    var n := LeNat(bs);
    match ty
    case TyU8 => Some(VU8(n))
    case TyU16 => Some(VU16(n))
    case TyU32 => Some(VU32(n))
    case TyU64 => Some(VU64(n))
    case TyI8 => Some(VI8(Unwrap(n, 0x100)))
    case TyI16 => Some(VI16(Unwrap(n, 0x1_0000)))
    case TyI32 => Some(VI32(Unwrap(n, U32_LIMIT)))
    case TyI64 => Some(VI64(Unwrap(n, U64_LIMIT)))
    case TyF32 => Some(VF32(n))
    case TyF64 => Some(VF64(n))
  }

  lemma LeNatFits(bs: seq<Byte>)
    ensures |bs| == 1 ==> LeNat(bs) < 0x100
    ensures |bs| == 2 ==> LeNat(bs) < 0x1_0000
    ensures |bs| == 4 ==> LeNat(bs) < U32_LIMIT
    ensures |bs| == 8 ==> LeNat(bs) < U64_LIMIT
  {
    Capacities();
    LeBytesOfLeNat(bs);
  }

  lemma FixedRoundTrip(v: Value)
    requires FixedWidth(TypeOf(v)).Some?
    ensures DecodeFixed(TypeOf(v), Encode(v)) == Some(v)
  {
    Capacities();
    var w := FixedWidth(TypeOf(v)).value;
    match v
    case VU8(x) => LeRoundTrip(x, w);
    case VU16(x) => LeRoundTrip(x, w);
    case VU32(x) => LeRoundTrip(x, w);
    case VU64(x) => LeRoundTrip(x, w);
    case VI8(x) => LeRoundTrip(Wrap(x, 0x100), w);
    case VI16(x) => LeRoundTrip(Wrap(x, 0x1_0000), w);
    case VI32(x) => LeRoundTrip(Wrap(x, U32_LIMIT), w);
    case VI64(x) => LeRoundTrip(Wrap(x, U64_LIMIT), w);
    case VF32(b) => LeRoundTrip(b, w);
    case VF64(b) => LeRoundTrip(b, w);
  }

  lemma FixedReEncode(ty: ValType, bs: seq<Byte>)
    requires FixedWidth(ty).Some? && |bs| == FixedWidth(ty).value
    ensures var r := DecodeFixed(ty, bs);
            r.Some? && TypeOf(r.value) == ty && Encode(r.value) == bs
  {
    LeNatFits(bs);
    LeBytesOfLeNat(bs);
    var n := LeNat(bs);
    match ty
    case TyI8 => UnwrapWrap(n, 0x100);
    case TyI16 => UnwrapWrap(n, 0x1_0000);
    case TyI32 => UnwrapWrap(n, U32_LIMIT);
    case TyI64 => UnwrapWrap(n, U64_LIMIT);
    case _ =>
  }

  lemma UnwrapWrap(n: nat, cap: nat)
    requires n < cap
    ensures Wrap(Unwrap(n, cap), cap) == n
  {
  }

  // ----- what the tables mean -----

  predicate Signed(ty: ValType) { ty in {TyI8, TyI16, TyI32, TyI64} }

  predicate Unsigned(ty: ValType) { ty in {TyU8, TyU16, TyU32, TyU64} }

  function Pow2(n: nat): nat { if n == 0 then 1 else 2 * Pow2(n - 1) }

  /** Tags run through the widths 1, 2, 4, 8: unsigned, signed, then the two float widths, bytes, text. */
  lemma TagOrder(ty: ValType)
    ensures Unsigned(ty) <==> Tag(ty) < 4
    ensures Signed(ty) <==> 4 <= Tag(ty) < 8
    ensures Unsigned(ty) || Signed(ty) ==> FixedWidth(ty) == Some(Pow2(Tag(ty) % 4))
    ensures Tag(ty) in {8, 9} ==> FixedWidth(ty) == Some(Pow2(Tag(ty) - 6))
    ensures Tag(ty) == 10 <==> ty == TyBytes
    ensures Tag(ty) == 11 <==> ty == TyCstr
    ensures FixedWidth(ty).None? <==> Tag(ty) >= 10
  {
    assert Pow2(0) == 1 && Pow2(1) == 2 && Pow2(2) == 4 && Pow2(3) == 8;
  }

  /** The integer a value stands for; for floats, their bit pattern. */
  function Number(v: Value): int
    requires FixedWidth(TypeOf(v)).Some?
  {
    match v
    case VU8(x) => x case VU16(x) => x case VU32(x) => x case VU64(x) => x
    case VI8(x) => x case VI16(x) => x case VI32(x) => x case VI64(x) => x
    case VF32(b) => b case VF64(b) => b
  }

  /**
   A decoded value is its little-endian bytes, or for signed types that less the range of the
   width; with the range of its type that fixes it: two's complement.
   */
  lemma DecodedNumber(ty: ValType, bs: seq<Byte>)
    requires FixedWidth(ty) == Some(|bs|)
    ensures DecodeFixed(ty, bs).Some? && TypeOf(DecodeFixed(ty, bs).value) == ty
    ensures var n := Number(DecodeFixed(ty, bs).value);
            n == LeNat(bs) || (Signed(ty) && n == LeNat(bs) - Capacity(|bs|))
  {
    Capacities();
    LeNatFits(bs);
  }
}
