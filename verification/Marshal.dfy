/**
 Register marshalling of a hooked call (`marshal.rs`): declared arguments are read from and
 written back to the four captured integer and four captured float registers; an instance
 method's first register is `this`. Floats are bit patterns; the two conversions are given.
 */
module Marshal {
  import opened Bytes
  import opened InvokeArgs
  import opened MemValue

  const SLOTS: nat := 4

  /** `f32 as f64` and `f64 as f32` on bit patterns. */
  datatype Floats = Floats(widen: U32 -> U64, narrow: U64 -> U32)

  datatype Signature = Signature(paramTypes: seq<ValType>, isStatic: bool)

  datatype Reason = NotCaptured | NotWritable | VariableLength | OnlyPrimitives

  datatype InvokeError =
    | NotFound
    | ArgCountMismatch(wanted: Byte, got: Byte)
    | ArgTypeMismatch(idx: Byte, expected: ValType, found: ValType)
    | MarshalFailed(idx: Byte, reason: Reason)

  datatype Result<+T> = Ok(value: T) | Err(error: InvokeError)

  /** The captured registers. */
  datatype Regs = Regs(ints: seq<U64>, floats: seq<U64>)

  predicate Whole(r: Regs) { |r.ints| == SLOTS && |r.floats| == SLOTS }

  /** Where the first declared argument lives. */
  function Shift(sig: Signature): nat { if sig.isStatic then 0 else 1 }

  predicate IsFloat(ty: ValType) { ty == TyF32 || ty == TyF64 }

  /** A value as its register: unsigned values zero-extend, signed ones sign-extend. */
  function ToReg(f: Floats, v: Value): U64
    requires FixedWidth(TypeOf(v)).Some?
  {
    match v
    case VU8(x) => x
    case VU16(x) => x
    case VU32(x) => x
    case VU64(x) => x
    case VI8(x) => Wrap(x, U64_LIMIT)
    case VI16(x) => Wrap(x, U64_LIMIT)
    case VI32(x) => Wrap(x, U64_LIMIT)
    case VI64(x) => Wrap(x, U64_LIMIT)
    case VF32(b) => f.widen(b)
    case VF64(b) => b
  }

  /** A register as a value of the type: truncated, then read with the type's sign. */
  function FromReg(f: Floats, ty: ValType, raw: U64): Value
    requires FixedWidth(ty).Some?
  {
    match ty
    case TyU8 => VU8(raw % 0x100)
    case TyU16 => VU16(raw % 0x1_0000)
    case TyU32 => VU32(raw % U32_LIMIT)
    case TyU64 => VU64(raw)
    case TyI8 => VI8(Unwrap(raw % 0x100, 0x100))
    case TyI16 => VI16(Unwrap(raw % 0x1_0000, 0x1_0000))
    case TyI32 => VI32(Unwrap(raw % U32_LIMIT, U32_LIMIT))
    case TyI64 => VI64(Unwrap(raw, U64_LIMIT))
    case TyF32 => VF32(f.narrow(raw))
    case TyF64 => VF64(raw)
  }

  /** The float register file for float types, the integer one for the rest. */
  function Slot(r: Regs, ty: ValType, slot: nat): U64
    requires Whole(r) && slot < SLOTS
  {
    if IsFloat(ty) then r.floats[slot] else r.ints[slot]
  }

  function Store(r: Regs, ty: ValType, slot: nat, raw: U64): (w: Regs)
    requires Whole(r) && slot < SLOTS
    ensures Whole(w)
  {
    if IsFloat(ty) then r.(floats := r.floats[slot := raw]) else r.(ints := r.ints[slot := raw])
  }

  // ----- one argument -----

  function ReadOne(f: Floats, ty: ValType, slot: nat, r: Regs): Result<InvokeArg>
    requires Whole(r)
  {
    if slot >= SLOTS then Err(MarshalFailed(slot % 256, NotCaptured))
    else if FixedWidth(ty).None? then Err(MarshalFailed(slot % 256, VariableLength))
    else Ok(Prim(FromReg(f, ty, Slot(r, ty, slot))))
  }

  /** What is wrong with writing this argument back, if anything. */
  function Refusal(ty: ValType, arg: InvokeArg, slot: nat): Option<InvokeError> {
    if !arg.Prim? then Some(MarshalFailed(slot % 256, OnlyPrimitives))
    else if TypeOf(arg.v) != ty then Some(ArgTypeMismatch(slot % 256, ty, TypeOf(arg.v)))
    else if slot >= SLOTS then Some(MarshalFailed(slot % 256, NotWritable))
    else if FixedWidth(ty).None? then Some(ArgTypeMismatch(slot % 256, ty, ty))
    else None
  }

  predicate Writable(ty: ValType, arg: InvokeArg) { arg.Prim? && TypeOf(arg.v) == ty && FixedWidth(ty).Some? }

  // ----- argument lists -----

  function ReadArgs(f: Floats, sig: Signature, r: Regs, n: nat): Result<seq<InvokeArg>>
    requires Whole(r) && n <= |sig.paramTypes|
  {
    if n == 0 then Ok([]) else
    var before := ReadArgs(f, sig, r, n - 1);
    if before.Err? then before else
    var arg := ReadOne(f, sig.paramTypes[n - 1], n - 1 + Shift(sig), r);
    if arg.Err? then Err(arg.error) else Ok(before.value + [arg.value])
  }

  /** Registers after writing back the first `n` arguments, all of them writable. */
  function Written(f: Floats, sig: Signature, args: seq<InvokeArg>, r: Regs, n: nat): (w: Regs)
    requires Whole(r) && n <= |args| == |sig.paramTypes| && AllWritable(sig, args, n)
    ensures Whole(w)
  {
    if n == 0 then r
    else Store(Written(f, sig, args, r, n - 1), sig.paramTypes[n - 1], n - 1 + Shift(sig), ToReg(f, args[n - 1].v))
  }

  predicate AllWritable(sig: Signature, args: seq<InvokeArg>, n: nat)
    requires n <= |args| == |sig.paramTypes|
  {
    forall i :: 0 <= i < n ==> Writable(sig.paramTypes[i], args[i]) && i + Shift(sig) < SLOTS
  }

  // ----- the register block -----

  class RegArgs {
    const methodId: U64
    const intArgs: array<U64>
    const floatArgs: array<U64>
    var retInt: U64
    var retFloat: U64

    ghost predicate Valid()
      reads this, intArgs, floatArgs
    {
      intArgs.Length == SLOTS && floatArgs.Length == SLOTS && intArgs != floatArgs
    }

    ghost function Contents(): (r: Regs)
      requires Valid()
      reads this, intArgs, floatArgs
      ensures Whole(r)
    {
      Regs(intArgs[..], floatArgs[..])
    }

    constructor (methodId: U64)
      ensures Valid() && fresh(intArgs) && fresh(floatArgs) && this.methodId == methodId
    {
      this.methodId := methodId;
      intArgs := new U64[SLOTS];
      floatArgs := new U64[SLOTS];
      retInt, retFloat := 0, 0;
    }

    method ReadArg(f: Floats, ty: ValType, slot: nat) returns (r: Result<InvokeArg>)
      requires Valid()
      ensures r == ReadOne(f, ty, slot, Contents())
    {
      if slot >= SLOTS { return Err(MarshalFailed(slot % 256, NotCaptured)); }
      match ty
      case TyBytes | TyCstr => r := Err(MarshalFailed(slot % 256, VariableLength));
      case TyF32 | TyF64 => r := Ok(Prim(FromReg(f, ty, floatArgs[slot])));
      case _ => r := Ok(Prim(FromReg(f, ty, intArgs[slot])));
    }

    /** `regargs_to_args`: the declared arguments, or the first one that cannot be read. */
    method ToArgs(f: Floats, signature: Option<Signature>) returns (r: Result<seq<InvokeArg>>)
      requires Valid()
      ensures r == if signature.None? then Err(NotFound)
                   else ReadArgs(f, signature.value, Contents(), |signature.value.paramTypes|)
    {
      if signature.None? { return Err(NotFound); }
      var sig := signature.value;
      var out: seq<InvokeArg> := [];
      var i := 0;
      while i < |sig.paramTypes|
        invariant i <= |sig.paramTypes|
        invariant ReadArgs(f, sig, Contents(), i) == Ok(out)
      {
        var arg := ReadArg(f, sig.paramTypes[i], i + Shift(sig));
        if arg.Err? {
          ReadErrorSticks(f, sig, Contents(), i + 1, |sig.paramTypes|);
          return Err(arg.error);
        }
        out := out + [arg.value];
        i := i + 1;
      }
      r := Ok(out);
    }

    method WriteArg(f: Floats, ty: ValType, arg: InvokeArg, slot: nat) returns (error: Option<InvokeError>)
      requires Valid()
      modifies intArgs, floatArgs
      ensures Valid() && error == Refusal(ty, arg, slot)
      ensures Contents() == if error.Some? then old(Contents()) else Store(old(Contents()), ty, slot, ToReg(f, arg.v))
    {
      if !arg.Prim? { return Some(MarshalFailed(slot % 256, OnlyPrimitives)); }
      if TypeOf(arg.v) != ty { return Some(ArgTypeMismatch(slot % 256, ty, TypeOf(arg.v))); }
      if slot >= SLOTS { return Some(MarshalFailed(slot % 256, NotWritable)); }
      error := None;
      match ty
      case TyBytes | TyCstr => error := Some(ArgTypeMismatch(slot % 256, ty, ty));
      case TyF32 | TyF64 => floatArgs[slot] := ToReg(f, arg.v);
      case _ => intArgs[slot] := ToReg(f, arg.v);
    }

    /**
     `args_to_regargs`: on success every argument is in its register and nothing else changed;
     a refused argument leaves the arguments before it written and the rest untouched.
     */
    method FromArgs(f: Floats, signature: Option<Signature>, args: seq<InvokeArg>)
      returns (r: Result<()>, ghost done: nat)
      requires Valid()
      modifies intArgs, floatArgs
      ensures Valid()
      ensures signature.None? ==> r == Err(NotFound) && Contents() == old(Contents())
      ensures signature.Some? && |args| != |signature.value.paramTypes| ==>
                && r == Err(ArgCountMismatch(|signature.value.paramTypes| % 256, |args| % 256))
                && Contents() == old(Contents())
      ensures signature.Some? && |args| == |signature.value.paramTypes| ==>
                var sig := signature.value;
                && done <= |args| && AllWritable(sig, args, done)
                && Contents() == Written(f, sig, args, old(Contents()), done)
                && (r.Ok? <==> done == |args|)
                && (r.Err? ==> Refusal(sig.paramTypes[done], args[done], done + Shift(sig)) == Some(r.error))
    {
      done := 0;
      if signature.None? { return Err(NotFound), 0; }
      var sig := signature.value;
      if |args| != |sig.paramTypes| {
        return Err(ArgCountMismatch(|sig.paramTypes| % 256, |args| % 256)), 0;
      }
      var i := 0;
      while i < |args|
        invariant i <= |args| && AllWritable(sig, args, i)
        invariant Valid() && Contents() == Written(f, sig, args, old(Contents()), i)
      {
        var error := WriteArg(f, sig.paramTypes[i], args[i], i + Shift(sig));
        if error.Some? { return Err(error.value), i; }
        i := i + 1;
      }
      r, done := Ok(()), i;
    }

    /** The return registers: the value in the one its type uses, zero in the other and on refusal. */
    method PackReturn(f: Floats, ty: ValType, value: InvokeArg) returns (error: Option<InvokeError>)
      modifies this`retInt, this`retFloat
      ensures error.None? <==> value == Null || Writable(ty, value)
      ensures !value.Prim? && value != Null ==> error == Some(MarshalFailed(0, OnlyPrimitives))
      ensures value.Prim? && !Writable(ty, value) ==> error == Some(ArgTypeMismatch(0, ty, TypeOf(value.v)))
      ensures error.None? && value != Null ==>
                if IsFloat(ty) then retInt == 0 && retFloat == ToReg(f, value.v)
                else retInt == ToReg(f, value.v) && retFloat == 0
      ensures error.Some? || value == Null ==> retInt == 0 && retFloat == 0
    {
      retInt, retFloat := 0, 0;
      if value == Null { return None; }
      if !value.Prim? { return Some(MarshalFailed(0, OnlyPrimitives)); }
      if TypeOf(value.v) != ty || FixedWidth(ty).None? { return Some(ArgTypeMismatch(0, ty, TypeOf(value.v))); }
      if IsFloat(ty) { retFloat := ToReg(f, value.v); } else { retInt := ToReg(f, value.v); }
      error := None;
    }
  }

  // ----- what the two directions promise each other -----

  /** A float argument that `f32 as f64 as f32` changes (a signalling NaN) does not survive. */
  predicate Survives(f: Floats, v: Value) { v.VF32? ==> f.narrow(f.widen(v.bits32)) == v.bits32 }

  lemma ByteComesBack(x: I8)
    ensures Unwrap(Wrap(x, U64_LIMIT) % 0x100, 0x100) == x
  {
    assert x < 0 ==> Wrap(x, U64_LIMIT) == 0x100 * 0xFF_FFFF_FFFF_FFFF + (x + 0x100);
  }

  lemma ShortComesBack(x: I16)
    ensures Unwrap(Wrap(x, U64_LIMIT) % 0x1_0000, 0x1_0000) == x
  {
    assert x < 0 ==> Wrap(x, U64_LIMIT) == 0x1_0000 * 0xFFFF_FFFF_FFFF + (x + 0x1_0000);
  }

  lemma IntComesBack(x: I32)
    ensures Unwrap(Wrap(x, U64_LIMIT) % U32_LIMIT, U32_LIMIT) == x
  {
    assert x < 0 ==> Wrap(x, U64_LIMIT) == 0x1_0000_0000 * 0xFFFF_FFFF + (x + 0x1_0000_0000);
  }

  /** Truncation undoes the zero or sign extension. */
  lemma RegRoundTrip(f: Floats, v: Value)
    requires FixedWidth(TypeOf(v)).Some?
    ensures FromReg(f, TypeOf(v), ToReg(f, v)) == v <==> Survives(f, v)
  {
    match v
    case VI8(x) => ByteComesBack(x);
    case VI16(x) => ShortComesBack(x);
    case VI32(x) => IntComesBack(x);
    case _ =>
  }

  /** An integer's register is the integer modulo 2^64, a float's its bits, widened when single. */
  lemma RegisterOf(f: Floats, v: Value)
    requires FixedWidth(TypeOf(v)).Some?
    ensures TypeOf(v) == TyF32 ==> ToReg(f, v) == f.widen(v.bits32)
    ensures TypeOf(v) != TyF32 ==> ToReg(f, v) == Number(v) || ToReg(f, v) == Number(v) + 0x1_0000_0000_0000_0000
  {
  }

  /** A register read as a value of `w` bytes is its low `w` bytes, for signed types in two's complement. */
  lemma ValueOf(f: Floats, ty: ValType, raw: U64)
    requires FixedWidth(ty).Some?
    ensures TypeOf(FromReg(f, ty, raw)) == ty
    ensures ty == TyF32 ==> Number(FromReg(f, ty, raw)) == f.narrow(raw)
    ensures ty != TyF32 ==>
              var (n, range) := (Number(FromReg(f, ty, raw)), Capacity(FixedWidth(ty).value));
              n == raw % range || (Signed(ty) && n == raw % range - range)
  {
    Capacities();
  }

  /** Why an argument is not written back: its kind, its type, its place, or no width to write. */
  lemma RefusedFor(ty: ValType, arg: InvokeArg, slot: nat)
    ensures Refusal(ty, arg, slot) == Some(MarshalFailed(slot % 256, OnlyPrimitives)) <==> !arg.Prim?
    ensures arg.Prim? && TypeOf(arg.v) != ty ==> Refusal(ty, arg, slot) == Some(ArgTypeMismatch(slot % 256, ty, TypeOf(arg.v)))
    ensures Refusal(ty, arg, slot) == Some(MarshalFailed(slot % 256, NotWritable)) <==>
            arg.Prim? && TypeOf(arg.v) == ty && slot > 3
    ensures arg.Prim? && TypeOf(arg.v) == ty && slot <= 3 ==>
              Refusal(ty, arg, slot) == if FixedWidth(ty).Some? then None else Some(ArgTypeMismatch(slot % 256, ty, ty))
  {
  }

  /** The register a declared argument comes from: float types in the float file, `this` before the first. */
  function Source(sig: Signature, r: Regs, i: nat): Option<U64>
    requires Whole(r) && i < |sig.paramTypes|
  {
    var slot := if sig.isStatic then i else i + 1;
    if slot > 3 || FixedWidth(sig.paramTypes[i]).None? then None
    else Some((if sig.paramTypes[i] in {TyF32, TyF64} then r.floats else r.ints)[slot])
  }

  /** The error of a declared argument that cannot be read. */
  function Unreadable(sig: Signature, i: nat): InvokeError {
    var slot := if sig.isStatic then i else i + 1;
    MarshalFailed(slot % 256, if slot > 3 then NotCaptured else VariableLength)
  }

  lemma ReadsOne(f: Floats, sig: Signature, r: Regs, i: nat)
    requires Whole(r) && i < |sig.paramTypes|
    ensures ReadOne(f, sig.paramTypes[i], i + Shift(sig), r) ==
            if Source(sig, r, i).None? then Err(Unreadable(sig, i))
            else Ok(Prim(FromReg(f, sig.paramTypes[i], Source(sig, r, i).value)))
  {
  }

  /** Reading succeeds exactly when every argument has a register and a width, and returns each from its own. */
  lemma {:induction false} ReadsDeclared(f: Floats, sig: Signature, r: Regs, n: nat)
    requires Whole(r) && n <= |sig.paramTypes|
    ensures var out := ReadArgs(f, sig, r, n);
            && (out.Ok? <==> forall i :: 0 <= i < n ==> Source(sig, r, i).Some?)
            && (out.Ok? ==> |out.value| == n && forall i :: 0 <= i < n ==>
                  out.value[i] == Prim(FromReg(f, sig.paramTypes[i], Source(sig, r, i).value)))
  {
    if n == 0 {
    } else {
      ReadsDeclared(f, sig, r, n - 1);
      ReadsOne(f, sig, r, n - 1);
    }
  }

  /** A failed read reports the first argument without a register or a width. */
  lemma {:induction false} ReadFailsAt(f: Floats, sig: Signature, r: Regs, n: nat) returns (i: nat)
    requires Whole(r) && n <= |sig.paramTypes| && ReadArgs(f, sig, r, n).Err?
    ensures i < n && Source(sig, r, i).None? && ReadArgs(f, sig, r, n) == Err(Unreadable(sig, i))
    ensures forall j :: 0 <= j < i ==> Source(sig, r, j).Some?
  {
    if ReadArgs(f, sig, r, n - 1).Err? {
      i := ReadFailsAt(f, sig, r, n - 1);
    } else {
      i := n - 1;
      ReadsDeclared(f, sig, r, n - 1);
      ReadsOne(f, sig, r, n - 1);
    }
  }

  lemma {:induction false} ReadErrorSticks(f: Floats, sig: Signature, r: Regs, m: nat, n: nat)
    requires Whole(r) && m <= n <= |sig.paramTypes| && ReadArgs(f, sig, r, m).Err?
    ensures ReadArgs(f, sig, r, n) == ReadArgs(f, sig, r, m)
    decreases n
  {
    if m >= n {
    } else {
      ReadErrorSticks(f, sig, r, m, n - 1);
    }
  }

  /** Write-back succeeds exactly for type-correct primitives that all have a register. */
  lemma WriteBackSucceedsExactly(sig: Signature, args: seq<InvokeArg>)
    requires |args| == |sig.paramTypes|
    ensures (forall i :: 0 <= i < |args| ==> Refusal(sig.paramTypes[i], args[i], i + Shift(sig)).None?) <==>
            AllWritable(sig, args, |args|)
    ensures AllWritable(sig, args, |args|) ==> |args| + Shift(sig) <= SLOTS
  {
    if AllWritable(sig, args, |args|) {
      forall i | 0 <= i < |args| ensures Refusal(sig.paramTypes[i], args[i], i + Shift(sig)).None? {
        assert Writable(sig.paramTypes[i], args[i]);
      }
      if args != [] { assert Writable(sig.paramTypes[|args| - 1], args[|args| - 1]); }
    } else {
      var i :| 0 <= i < |args| && !(Writable(sig.paramTypes[i], args[i]) && i + Shift(sig) < SLOTS);
      assert Refusal(sig.paramTypes[i], args[i], i + Shift(sig)).Some?;
    }
  }

  /** The register of an argument, before and after write-back. */
  lemma {:induction false} WrittenSlots(f: Floats, sig: Signature, args: seq<InvokeArg>, r: Regs, n: nat, float: bool, slot: nat)
    requires Whole(r) && n <= |args| == |sig.paramTypes| && AllWritable(sig, args, n) && slot < SLOTS
    ensures var w := Written(f, sig, args, r, n);
            var i := if sig.isStatic then slot else slot - 1;
            (if float then w.floats else w.ints)[slot] ==
            if 0 <= i < n && (sig.paramTypes[i] in {TyF32, TyF64}) == float then ToReg(f, args[i].v)
            else (if float then r.floats else r.ints)[slot]
  {
    if n == 0 {
    } else {
      WrittenSlots(f, sig, args, r, n - 1, float, slot);
    }
  }

  /** `this` and every register no argument of its class maps to keep their contents. */
  lemma OthersUntouched(f: Floats, sig: Signature, args: seq<InvokeArg>, r: Regs)
    requires Whole(r) && |args| == |sig.paramTypes| && AllWritable(sig, args, |args|)
    ensures var w := Written(f, sig, args, r, |args|);
            && (!sig.isStatic ==> w.ints[0] == r.ints[0] && w.floats[0] == r.floats[0])
            && forall k :: 0 <= k < SLOTS && !(0 <= k - Shift(sig) < |args|) ==>
                 w.ints[k] == r.ints[k] && w.floats[k] == r.floats[k]
  {
    forall k: nat | k < SLOTS && !(0 <= k - Shift(sig) < |args|)
      ensures var w := Written(f, sig, args, r, |args|); w.ints[k] == r.ints[k] && w.floats[k] == r.floats[k]
    {
      WrittenSlots(f, sig, args, r, |args|, false, k);
      WrittenSlots(f, sig, args, r, |args|, true, k);
    }
  }

  /** Reads what was written: every argument back at its place, up to the float conversion. */
  lemma {:induction false} ReadsWritten(f: Floats, sig: Signature, args: seq<InvokeArg>, r: Regs, n: nat)
    requires Whole(r) && n <= |args| == |sig.paramTypes| && AllWritable(sig, args, |args|)
    ensures var out := ReadArgs(f, sig, Written(f, sig, args, r, |args|), n);
            && out.Ok? && |out.value| == n
            && forall i :: 0 <= i < n ==> out.value[i] == Prim(FromReg(f, sig.paramTypes[i], ToReg(f, args[i].v)))
  {
    if n == 0 {
    } else {
      ReadsWritten(f, sig, args, r, n - 1);
      var k := n - 1;
      assert Writable(sig.paramTypes[k], args[k]);
      WrittenSlots(f, sig, args, r, |args|, IsFloat(sig.paramTypes[k]), k + Shift(sig));
    }
  }

  /** Write-back followed by reading returns the argument list, exactly when its floats survive. */
  lemma MarshalRoundTrip(f: Floats, sig: Signature, args: seq<InvokeArg>, r: Regs)
    requires Whole(r) && |args| == |sig.paramTypes| && AllWritable(sig, args, |args|)
    ensures ReadArgs(f, sig, Written(f, sig, args, r, |args|), |args|) == Ok(args) <==>
            forall i :: 0 <= i < |args| ==> Survives(f, args[i].v)
  {
    ReadsWritten(f, sig, args, r, |args|);
    forall i | 0 <= i < |args|
      ensures Prim(FromReg(f, sig.paramTypes[i], ToReg(f, args[i].v))) == args[i] <==> Survives(f, args[i].v)
    {
      assert Writable(sig.paramTypes[i], args[i]);
      RegRoundTrip(f, args[i].v);
    }
    var out := ReadArgs(f, sig, Written(f, sig, args, r, |args|), |args|).value;
    if forall i :: 0 <= i < |args| ==> Survives(f, args[i].v) {
      assert out == args;
    }
  }
}
