/**
 The typed write operations a script calls (`mem_host.rs`): `write`, `write_if` and
 `write_permanent`. Only the first two go through the journal.
 */
module MemHost {
  import opened Bytes
  import opened MemValue
  import opened ProcessMemory
  import opened WriteJournal

  datatype Status = Done | Unreadable | Unwritable | BadType | Changed

  /** The bytes a typed write stores: the type's width from the front of the guest buffer. */
  function TypedBytes(ty: ValType, input: seq<Byte>): (r: Option<seq<Byte>>)
    ensures r.Some? <==> FixedWidth(ty).Some? && FixedWidth(ty).value <= |input|
    ensures r.Some? ==> FixedWidth(ty) == Some(|r.value|) && r.value <= input
  {
    match FixedWidth(ty)
    case None => None
    case Some(w) => if |input| < w then None else Some(input[..w])
  }

  /** Equality of decoded values: bit equality, except for IEEE 754 zeros and NaNs. */
  predicate TypedEqual(ty: ValType, a: seq<Byte>, b: seq<Byte>) {
    match ty
    case TyF32 => FloatEqual(LeNat(a), LeNat(b), 0x8000_0000, 0x7F80_0000)
    case TyF64 => FloatEqual(LeNat(a), LeNat(b), 0x8000_0000_0000_0000, 0x7FF0_0000_0000_0000)
    case _ => a == b
  }

  predicate FloatEqual(a: nat, b: nat, sign: nat, infinity: nat)
    requires sign > 0
  {
    a % sign <= infinity && b % sign <= infinity && (a == b || (a % sign == 0 && b % sign == 0))
  }

  datatype Wrote = Wrote(mem: Mem, entries: Entries, status: Status)

  function StoreStatus(mem: Mem, addr: Addr, data: seq<Byte>, writable: bool): Status {
    if writable && Mapped(mem, addr, |data|) then Done else Unwritable
  }

  function HostWrite(mem: Mem, entries: Entries, addr: Addr, ty: ValType, input: seq<Byte>,
                     readable: bool, writable: bool): Wrote
  {
    match TypedBytes(ty, input)
    case None => Wrote(mem, entries, BadType)
    case Some(data) =>
      Wrote(RawWrite(mem, addr, data, writable), Touched(entries, mem, addr, |data|, readable),
            StoreStatus(mem, addr, data, writable))
  }

  /** Read, compare, and write on a match; a mismatch neither writes nor touches the journal. */
  function HostWriteIf(mem: Mem, entries: Entries, addr: Addr, ty: ValType, expected: seq<Byte>,
                       input: seq<Byte>, readable: bool, writable: bool): Wrote
  {
    var want, data := TypedBytes(ty, expected), TypedBytes(ty, input);
    if want.None? || data.None? then Wrote(mem, entries, BadType) else
    match RawRead(mem, addr, |data.value|, readable)
    case None => Wrote(mem, entries, Unreadable)
    case Some(current) =>
      if !TypedEqual(ty, current, want.value) then Wrote(mem, entries, Changed)
      else HostWrite(mem, entries, addr, ty, input, readable, writable)
  }

  /** No journal: the change is meant to survive the script. */
  function HostWritePermanent(mem: Mem, addr: Addr, ty: ValType, input: seq<Byte>, writable: bool): (Mem, Status) {
    match TypedBytes(ty, input)
    case None => (mem, BadType)
    case Some(data) => (RawWrite(mem, addr, data, writable), StoreStatus(mem, addr, data, writable))
  }

  // ----- what a script can rely on -----

  /** A range that is committed to the last byte and that the system lets a script access. */
  predicate CanAccess(mem: Mem, addr: Addr, width: nat, allowed: bool) {
    allowed && forall x :: addr <= x < addr + width ==> x in mem
  }

  predicate IsFloat(ty: ValType) { ty == TyF32 || ty == TyF64 }

  /** The fields of an IEEE 754 number with `fractions` fraction values and `exponents` exponent values. */
  datatype Format = Format(fractions: nat, exponents: nat)

  function FormatOf(ty: ValType): (f: Format)
    ensures f.fractions > 0 && f.exponents > 0
  {
    if ty == TyF32 then Format(0x80_0000, 0x100) else Format(0x10_0000_0000_0000, 0x800)
  }

  predicate IsNaN(f: Format, n: nat)
    requires f.fractions > 0 && f.exponents > 0
  {
    n / f.fractions % f.exponents == f.exponents - 1 && n % f.fractions != 0
  }

  predicate IsZero(f: Format, n: nat)
    requires f.fractions > 0 && f.exponents > 0
  {
    n / f.fractions % f.exponents == 0 && n % f.fractions == 0
  }

  /** Equal as numbers: not a NaN, and the same bits unless both are a zero. */
  predicate SameFloat(ty: ValType, a: seq<Byte>, b: seq<Byte>) {
    var f, x, y := FormatOf(ty), LeNat(a), LeNat(b);
    !IsNaN(f, x) && !IsNaN(f, y) && (x == y || (IsZero(f, x) && IsZero(f, y)))
  }

  lemma SingleFields(n: nat)
    ensures n % 0x8000_0000 <= 0x7F80_0000 <==> !IsNaN(FormatOf(TyF32), n)
    ensures n % 0x8000_0000 == 0 <==> IsZero(FormatOf(TyF32), n)
  {
    var e, f := n / 0x80_0000 % 0x100, n % 0x80_0000;
    assert n % 0x8000_0000 == e * 0x80_0000 + f;
  }

  lemma DoubleFields(n: nat)
    ensures n % 0x8000_0000_0000_0000 <= 0x7FF0_0000_0000_0000 <==> !IsNaN(FormatOf(TyF64), n)
    ensures n % 0x8000_0000_0000_0000 == 0 <==> IsZero(FormatOf(TyF64), n)
  {
    var e, f := n / 0x10_0000_0000_0000 % 0x800, n % 0x10_0000_0000_0000;
    assert n % 0x8000_0000_0000_0000 == e * 0x10_0000_0000_0000 + f;
  }

  /** The comparison of `write_if` is numeric equality for floats: zeros of both signs match, a NaN matches nothing. */
  lemma FloatsAgree(ty: ValType, a: seq<Byte>, b: seq<Byte>)
    ensures IsFloat(ty) ==> (TypedEqual(ty, a, b) <==> SameFloat(ty, a, b))
    ensures !IsFloat(ty) ==> (TypedEqual(ty, a, b) <==> a == b)
  {
    SingleFields(LeNat(a));
    SingleFields(LeNat(b));
    DoubleFields(LeNat(a));
    DoubleFields(LeNat(b));
  }

  /** `write`: short or variable-length input changes nothing; otherwise the first touch is recorded first. */
  lemma WriteEffect(mem: Mem, entries: Entries, addr: Addr, ty: ValType, input: seq<Byte>, readable: bool, writable: bool)
    ensures var r := HostWrite(mem, entries, addr, ty, input, readable, writable);
            if FixedWidth(ty).None? || |input| < FixedWidth(ty).value then r == Wrote(mem, entries, BadType)
            else
              var w := FixedWidth(ty).value;
              && r.mem.Keys == mem.Keys
              && (r.status == Done <==> CanAccess(mem, addr, w, writable)) && (r.status == Unwritable <==> r.status != Done)
              && (r.status == Done ==> Holds(r.mem, addr, input[..w]))
              && (forall x :: x in mem && (r.status != Done || !Within(x, addr, w)) ==> r.mem[x] == mem[x])
              && (addr in r.entries <==> addr in entries || CanAccess(mem, addr, w, readable))
              && (addr in r.entries && addr !in entries ==> r.entries[addr] == Load(mem, addr, w))
              && (forall a :: a in entries ==> a in r.entries && r.entries[a] == entries[a])
              && r.entries.Keys <= entries.Keys + {addr}
  {
  }

  /** `write_permanent` stores like `write`, without a journal to touch. */
  lemma PermanentEffect(mem: Mem, entries: Entries, addr: Addr, ty: ValType, input: seq<Byte>, readable: bool, writable: bool)
    ensures var (m, status) := HostWritePermanent(mem, addr, ty, input, writable);
            var r := HostWrite(mem, entries, addr, ty, input, readable, writable);
            m == r.mem && status == r.status
  {
  }

  /** `write_if`, refused: a buffer is too short or the type has no width, or the value cannot be read. */
  lemma WriteIfRefused(mem: Mem, entries: Entries, addr: Addr, ty: ValType, expected: seq<Byte>,
                       input: seq<Byte>, readable: bool, writable: bool)
    ensures var r := HostWriteIf(mem, entries, addr, ty, expected, input, readable, writable);
            var bad := FixedWidth(ty).None? || |expected| < FixedWidth(ty).value || |input| < FixedWidth(ty).value;
            && (bad ==> r == Wrote(mem, entries, BadType))
            && (!bad && !CanAccess(mem, addr, FixedWidth(ty).value, readable) ==> r == Wrote(mem, entries, Unreadable))
  {
  }

  /** `write_if` on a value that decodes as expected: the journal has the address, and the new bytes are there. */
  lemma WriteIfMatches(mem: Mem, entries: Entries, addr: Addr, ty: ValType, expected: seq<Byte>,
                       input: seq<Byte>, readable: bool, writable: bool)
    requires FixedWidth(ty).Some? && FixedWidth(ty).value <= |expected| && FixedWidth(ty).value <= |input|
    requires CanAccess(mem, addr, FixedWidth(ty).value, readable)
    requires var w := FixedWidth(ty).value;
             if IsFloat(ty) then SameFloat(ty, Load(mem, addr, w), expected[..w]) else Load(mem, addr, w) == expected[..w]
    ensures var r := HostWriteIf(mem, entries, addr, ty, expected, input, readable, writable);
            var w := FixedWidth(ty).value;
            && r == HostWrite(mem, entries, addr, ty, input, readable, writable) && addr in r.entries
            && (writable ==> r.status == Done && Holds(r.mem, addr, input[..w]))
            && (!writable ==> r.status == Unwritable && r.mem == mem)
  {
    FloatsAgree(ty, Load(mem, addr, FixedWidth(ty).value), expected[..FixedWidth(ty).value]);
  }

  /** `write_if` on any other value: nothing is written or recorded. */
  lemma WriteIfDiffers(mem: Mem, entries: Entries, addr: Addr, ty: ValType, expected: seq<Byte>,
                       input: seq<Byte>, readable: bool, writable: bool)
    requires FixedWidth(ty).Some? && FixedWidth(ty).value <= |expected| && FixedWidth(ty).value <= |input|
    requires CanAccess(mem, addr, FixedWidth(ty).value, readable)
    requires var w := FixedWidth(ty).value;
             if IsFloat(ty) then !SameFloat(ty, Load(mem, addr, w), expected[..w]) else Load(mem, addr, w) != expected[..w]
    ensures HostWriteIf(mem, entries, addr, ty, expected, input, readable, writable) == Wrote(mem, entries, Changed)
  {
    FloatsAgree(ty, Load(mem, addr, FixedWidth(ty).value), expected[..FixedWidth(ty).value]);
  }
}
