/**
 Walking a class's field records: the one-shot callback walk and the by-name lookup (`api.rs`)
 against the resumable, backend-driven iterators (`access.rs`). Memory reads are functions of
 the address that may fail; a backend may answer differently on every call.
 */
module FieldWalk {
  import opened Bytes
  import opened MemValue

  type Name = seq<Byte>

  datatype Memory = Memory(u64: nat -> Option<nat>, u32: nat -> Option<nat>, cstr: nat -> Option<Name>,
                           valueType: nat -> bool)

  /** Calibrated offsets: field list in the class, discriminator word in a type, type code in the word. */
  datatype Config = Config(klassFields: nat, discrimReadAt: nat, discrimShift: nat)

  datatype FieldInfo = FieldInfo(namePtr: nat, offset: nat, ty: ValType, token: nat, isStatic: bool, typePtr: nat)

  datatype RawField = RawField(field: FieldInfo, nextCursor: nat)

  /** What the one-shot walk hands to its callback. */
  datatype Visit = Visit(name: Name, offset: nat, typePtr: nat)

  const MAX_FIELDS: nat := 256
  const RECORD_SIZE: nat := 32
  const HEADER_SIZE: nat := 0x10

  /** Logical shift right. */
  function Shr(x: nat, k: nat): nat
    decreases k
  {
    if k == 0 then x else Shr(x / 2, k - 1)
  }

  function Chunk(m: Memory, cfg: Config, typePtr: nat): nat { OrElse(m.u64(typePtr + cfg.discrimReadAt), 0) }

  function TypeCode(cfg: Config, chunk: nat): nat { Shr(chunk, cfg.discrimShift) % 256 }

  predicate PlausibleCode(tc: nat) { 0 < tc <= 0x45 }

  /** The attribute bit 0x10 of the word. */
  predicate StaticBit(chunk: nat) { chunk / 16 % 2 == 1 }

  /** Value of a type code; `Void` has none and every code past the primitives is a pointer. */
  function TypeFromCode(tc: nat): Option<ValType> {
    match tc
    case 0x01 => None
    case 0x02 => Some(TyU8) case 0x03 => Some(TyU16) case 0x04 => Some(TyI8) case 0x05 => Some(TyU8)
    case 0x06 => Some(TyI16) case 0x07 => Some(TyU16) case 0x08 => Some(TyI32) case 0x09 => Some(TyU32)
    case 0x0A => Some(TyI64) case 0x0B => Some(TyU64) case 0x0C => Some(TyF32) case 0x0D => Some(TyF64)
    case _ => Some(TyU64)
  }

  function ValueTypeOf(tc: nat): ValType {
    var t := TypeFromCode(tc);
    if t.Some? then t.value else TyU64
  }

  /** Value types report offsets past the object header; the subtraction saturates at zero. */
  function Adjusted(raw: nat, isValueType: bool): nat {
    if !isValueType then raw else if raw < HEADER_SIZE then 0 else raw - HEADER_SIZE
  }

  // ----- what a field list holds -----

  datatype Slot = End | Garbage | Real(field: FieldInfo)

  function SlotAt(m: Memory, cfg: Config, klass: nat, list: nat, i: nat): Slot {
    var slot := list + i * RECORD_SIZE;
    var namePtr := OrElse(m.u64(slot), 0);
    if namePtr == 0 then End else
    var name := m.cstr(namePtr);
    var token := OrElse(m.u32(slot + 28), 0);
    var typePtr := OrElse(m.u64(slot + 8), 0);
    var chunk := Chunk(m, cfg, typePtr);
    var tc := TypeCode(cfg, chunk);
    if name.None? || name.value == [] || token == 0 || typePtr == 0 || !PlausibleCode(tc) then Garbage
    else Real(FieldInfo(namePtr, Adjusted(OrElse(m.u32(slot + 24), 0), m.valueType(klass)), ValueTypeOf(tc), token,
                        StaticBit(chunk), typePtr))
  }

  /** The field list of a class, slot by slot up to the cap. */
  function SlotsOf(m: Memory, cfg: Config, klass: nat, list: nat): (slots: seq<Slot>)
    ensures |slots| == 256
    ensures forall i :: 0 <= i < 256 ==> slots[i] == SlotAt(m, cfg, klass, list, i)
  {
    seq(MAX_FIELDS, i requires 0 <= i => SlotAt(m, cfg, klass, list, i))
  }

  /** The real records before the end mark. */
  function FieldsIn(slots: seq<Slot>): seq<FieldInfo> {
    if slots == [] || slots[0].End? then []
    else if slots[0].Real? then [slots[0].field] + FieldsIn(slots[1..])
    else FieldsIn(slots[1..])
  }

  function ListOf(m: Memory, cfg: Config, klass: nat): nat { OrElse(m.u64(klass + cfg.klassFields), 0) }

  function Fields(m: Memory, cfg: Config, klass: nat): seq<FieldInfo> {
    var list := ListOf(m, cfg, klass);
    if list == 0 then [] else FieldsIn(SlotsOf(m, cfg, klass, list))
  }

  function VisitOf(m: Memory, f: FieldInfo): Visit {
    var name := m.cstr(f.namePtr);
    Visit(if name.Some? then name.value else [], f.offset, f.typePtr)
  }

  /** The visits of those fields up to and including the first one that stops the walk. */
  function Visits(m: Memory, fields: seq<FieldInfo>, stop: Visit -> bool): seq<Visit> {
    if fields == [] then [] else
    var v := VisitOf(m, fields[0]);
    [v] + if stop(v) then [] else Visits(m, fields[1..], stop)
  }

  // ----- the one-shot walk -----

  /** What is still to visit from slot `fi` on: nothing, the later slots', or one visit and then those. */
  lemma TurnOfWalk(m: Memory, slots: seq<Slot>, fi: nat, stop: Visit -> bool, visited: seq<Visit>)
    requires fi < |slots|
    ensures var now, later := Visits(m, FieldsIn(slots[fi..]), stop), Visits(m, FieldsIn(slots[fi + 1..]), stop);
            match slots[fi]
            case End => visited + now == visited
            case Garbage => now == later
            case Real(f) => var v := VisitOf(m, f); visited + now == (visited + [v]) + if stop(v) then [] else later
  {
    assert slots[fi..][0] == slots[fi] && slots[fi..][1..] == slots[fi + 1..];
    if slots[fi].Real? {
      var v := VisitOf(m, slots[fi].field);
      VisitsStep(m, slots[fi..], stop);
      ConcatAssoc(visited, [v], if stop(v) then [] else Visits(m, FieldsIn(slots[fi + 1..]), stop));
    }
  }

  lemma VisitsStep(m: Memory, slots: seq<Slot>, stop: Visit -> bool)
    requires slots != [] && slots[0].Real?
    ensures var v := VisitOf(m, slots[0].field);
            Visits(m, FieldsIn(slots), stop) == [v] + if stop(v) then [] else Visits(m, FieldsIn(slots[1..]), stop)
  {
  }

  /** One turn of the walk: the end mark, a skipped slot, or a visit. */
  method VisitSlot(m: Memory, cfg: Config, klass: nat, list: nat, fi: nat, ghost s: Slot)
    returns (ended: bool, visit: Option<Visit>)
    requires s == SlotAt(m, cfg, klass, list, fi)
    ensures (ended <==> s.End?) && visit == if s.Real? then Some(VisitOf(m, s.field)) else None
  {
    var slot := list + fi * RECORD_SIZE;
    var nameRead := m.u64(slot);
    if nameRead.None? || nameRead.value == 0 { return true, None; }
    var name := m.cstr(nameRead.value);
    if name.None? || name.value == [] { return false, None; }
    if OrElse(m.u32(slot + 28), 0) == 0 { return false, None; }
    var typePtr := OrElse(m.u64(slot + 8), 0);
    if typePtr == 0 { return false, None; }
    var tc := TypeCode(cfg, Chunk(m, cfg, typePtr));
    if tc == 0 || tc > 0x45 { return false, None; }
    var offset := Adjusted(OrElse(m.u32(slot + 24), 0), m.valueType(klass));
    return false, Some(Visit(name.value, offset, typePtr));
  }

  method ForEachField(m: Memory, cfg: Config, klass: nat, stop: Visit -> bool) returns (visited: seq<Visit>)
    ensures visited == Visits(m, Fields(m, cfg, klass), stop)
  {
    var listRead := m.u64(klass + cfg.klassFields);
    if listRead.None? || listRead.value == 0 { return []; }
    visited := WalkList(m, cfg, klass, listRead.value, stop);
  }

  method WalkList(m: Memory, cfg: Config, klass: nat, list: nat, stop: Visit -> bool) returns (visited: seq<Visit>)
    ensures visited == Visits(m, FieldsIn(SlotsOf(m, cfg, klass, list)), stop)
  {
    visited := [];
    ghost var slots := SlotsOf(m, cfg, klass, list);
    ghost var all := Visits(m, FieldsIn(slots), stop);
    assert slots[0..] == slots;
    for fi := 0 to MAX_FIELDS
      invariant all == visited + Visits(m, FieldsIn(slots[fi..]), stop)
    {
      TurnOfWalk(m, slots, fi, stop, visited);
      var ended, visit := VisitSlot(m, cfg, klass, list, fi, slots[fi]);
      if ended { break; }
      if visit.None? { continue; }
      visited := visited + [visit.value];
      if stop(visit.value) { return; }
    }
  }

  // ----- the resumable backend -----

  /** The first real record of the slots that start at index `i`, with the index to resume from. */
  function NextField(slots: seq<Slot>, i: nat): Option<RawField>
    decreases |slots|
  {
    if slots == [] || slots[0].End? then None
    else if slots[0].Real? then Some(RawField(slots[0].field, i + 1))
    else NextField(slots[1..], i + 1)
  }

  lemma TurnOfSearch(slots: seq<Slot>, fi: nat)
    requires fi < |slots|
    ensures NextField(slots[fi..], fi) ==
            match slots[fi]
            case End => None
            case Garbage => NextField(slots[fi + 1..], fi + 1)
            case Real(f) => Some(RawField(f, fi + 1))
  {
    assert slots[fi..][0] == slots[fi] && slots[fi..][1..] == slots[fi + 1..];
  }

  function FieldAtOrAfter(m: Memory, cfg: Config, klass: nat, list: nat, cursor: nat): Option<RawField> {
    if cursor >= MAX_FIELDS then None else NextField(SlotsOf(m, cfg, klass, list)[cursor..], cursor)
  }

  /** One turn of the backend's search. */
  method FieldSlot(m: Memory, cfg: Config, klass: nat, list: nat, fi: nat, isValueType: bool, ghost s: Slot)
    returns (ended: bool, field: Option<FieldInfo>)
    requires isValueType == m.valueType(klass) && s == SlotAt(m, cfg, klass, list, fi)
    ensures (ended <==> s.End?) && field == if s.Real? then Some(s.field) else None
  {
    var slot := list + fi * RECORD_SIZE;
    var nameRead := m.u64(slot);
    if nameRead.None? || nameRead.value == 0 { return true, None; }
    var name := m.cstr(nameRead.value);
    if name.None? || name.value == [] { return false, None; }
    var token := OrElse(m.u32(slot + 28), 0);
    if token == 0 { return false, None; }
    var typePtr := OrElse(m.u64(slot + 8), 0);
    if typePtr == 0 { return false, None; }
    var chunk := Chunk(m, cfg, typePtr);
    var tc := TypeCode(cfg, chunk);
    if tc == 0 || tc > 0x45 { return false, None; }
    var offset := Adjusted(OrElse(m.u32(slot + 24), 0), isValueType);
    return false, Some(FieldInfo(nameRead.value, offset, ValueTypeOf(tc), token, StaticBit(chunk), typePtr));
  }

  method FieldsAt(m: Memory, cfg: Config, klass: nat, cursor: nat) returns (r: Option<RawField>)
    ensures r == FieldBackend(m, cfg, klass)(cursor)
  {
    var listRead := m.u64(klass + cfg.klassFields);
    if listRead.None? || listRead.value == 0 { return None; }
    r := SearchList(m, cfg, klass, listRead.value, cursor);
  }

  method SearchList(m: Memory, cfg: Config, klass: nat, list: nat, cursor: nat) returns (r: Option<RawField>)
    ensures r == FieldAtOrAfter(m, cfg, klass, list, cursor)
  {
    var isValueType := m.valueType(klass);
    ghost var slots := SlotsOf(m, cfg, klass, list);
    var fi := cursor;
    while fi < MAX_FIELDS
      invariant cursor < MAX_FIELDS ==> fi <= MAX_FIELDS && NextField(slots[cursor..], cursor) == NextField(slots[fi..], fi)
      decreases MAX_FIELDS - fi
    {
      TurnOfSearch(slots, fi);
      var ended, field := FieldSlot(m, cfg, klass, list, fi, isValueType, slots[fi]);
      if ended { return None; }
      fi := fi + 1;
      if field.Some? { return Some(RawField(field.value, fi)); }
    }
    r := None;
  }

  type Backend = nat -> Option<RawField>

  function FieldBackend(m: Memory, cfg: Config, klass: nat): Backend {
    (cursor: nat) =>
      var list := ListOf(m, cfg, klass);
      if list == 0 then None else FieldAtOrAfter(m, cfg, klass, list, cursor)
  }

  /** What an iterator yields when its k-th call from now is answered by `backend(k)`. */
  function Drained(backend: nat -> Backend, k: nat, cursor: nat, limit: nat): seq<FieldInfo>
    decreases limit - cursor
  {
    if cursor >= limit then [] else
    var raw := backend(k)(cursor);
    if raw.None? || raw.value.nextCursor <= cursor then []
    else [raw.value.field] + Drained(backend, k + 1, raw.value.nextCursor, limit)
  }

  lemma TurnOfDrain(items: seq<FieldInfo>, backend: nat -> Backend, k: nat, cursor: nat, limit: nat)
    ensures var raw := backend(k)(cursor);
            items + Drained(backend, k, cursor, limit) ==
            if cursor >= limit || raw.None? || raw.value.nextCursor <= cursor then items
            else (items + [raw.value.field]) + Drained(backend, k + 1, raw.value.nextCursor, limit)
  {
    var raw := backend(k)(cursor);
    if cursor < limit && raw.Some? && raw.value.nextCursor > cursor {
      ConcatAssoc(items, [raw.value.field], Drained(backend, k + 1, raw.value.nextCursor, limit));
    }
  }

  class FieldInfoIter {
    const klass: nat
    var cursor: nat
    const limit: nat

    constructor (klass: nat)
      ensures this.klass == klass && cursor == 0 && limit == MAX_FIELDS
    {
      this.klass := klass;
      cursor := 0;
      limit := MAX_FIELDS;
    }

    /** The cursor moves exactly when something is yielded, and then strictly forward. */
    method Next(backend: Backend) returns (item: Option<FieldInfo>)
      modifies this`cursor
      ensures item.Some? <==> old(cursor) < limit && backend(old(cursor)).Some? &&
                              backend(old(cursor)).value.nextCursor > old(cursor)
      ensures item.Some? ==> backend(old(cursor)) == Some(RawField(item.value, cursor))
      ensures item.None? ==> cursor == old(cursor)
    {
      if cursor >= limit { return None; }
      var raw := backend(cursor);
      if raw.None? { return None; }
      if raw.value.nextCursor <= cursor { return None; }
      cursor := raw.value.nextCursor;
      item := Some(raw.value.field);
    }

    /** Draining the iterator ends against any backend, after at most one item per slot left. */
    method Drain(backend: nat -> Backend) returns (items: seq<FieldInfo>)
      modifies this`cursor
      ensures items == Drained(backend, 0, old(cursor), limit)
      ensures |items| <= if old(cursor) < limit then limit - old(cursor) else 0
      ensures cursor >= old(cursor)
    {
      items := [];
      var k := 0;
      var more := true;
      while more
        invariant cursor >= old(cursor) && k == |items|
        invariant |items| <= cursor - old(cursor) && (old(cursor) >= limit ==> items == [])
        invariant |items| <= if old(cursor) < limit then limit - old(cursor) else 0
        invariant Drained(backend, 0, old(cursor), limit) == items + if more then Drained(backend, k, cursor, limit) else []
        decreases more, limit - cursor
      {
        TurnOfDrain(items, backend, k, cursor, limit);
        var item := Next(backend(k));
        if item.Some? {
          items := items + [item.value];
          k := k + 1;
        } else {
          more := false;
        }
      }
    }
  }

  // ----- the walks agree -----

  function Steady(b: Backend): nat -> Backend { (k: nat) => b }

  lemma {:induction false} SkipsToNext(slots: seq<Slot>, from: nat)
    requires from <= |slots|
    ensures var next := NextField(slots[from..], from);
            next.Some? ==> from < next.value.nextCursor <= |slots|
    ensures var next := NextField(slots[from..], from);
            FieldsIn(slots[from..]) ==
            if next.None? then [] else [next.value.field] + FieldsIn(slots[next.value.nextCursor..])
    decreases |slots| - from
  {
    if from >= |slots| {
    } else {
      assert slots[from..][1..] == slots[from + 1..];
      SkipsToNext(slots, from + 1);
    }
  }

  /** Resuming from any slot yields exactly the fields from that slot on. */
  lemma {:induction false} DrainedFrom(m: Memory, cfg: Config, klass: nat, k: nat, cursor: nat)
    requires ListOf(m, cfg, klass) != 0 && cursor <= MAX_FIELDS
    ensures Drained(Steady(FieldBackend(m, cfg, klass)), k, cursor, MAX_FIELDS) ==
            FieldsIn(SlotsOf(m, cfg, klass, ListOf(m, cfg, klass))[cursor..])
    decreases MAX_FIELDS - cursor
  {
    var slots := SlotsOf(m, cfg, klass, ListOf(m, cfg, klass));
    SkipsToNext(slots, cursor);
    var next := NextField(slots[cursor..], cursor);
    if cursor >= MAX_FIELDS || next.None? {
    } else {
      DrainedFrom(m, cfg, klass, k + 1, next.value.nextCursor);
    }
  }

  /** The iterator yields the fields of the one-shot walk, in order. */
  lemma ResumableIsOneShot(m: Memory, cfg: Config, klass: nat)
    ensures Drained(Steady(FieldBackend(m, cfg, klass)), 0, 0, MAX_FIELDS) == Fields(m, cfg, klass)
  {
    var list := ListOf(m, cfg, klass);
    if list != 0 {
      DrainedFrom(m, cfg, klass, 0, 0);
      assert SlotsOf(m, cfg, klass, list)[0..] == SlotsOf(m, cfg, klass, list);
    }
  }

  // ----- lookup by name -----

  /** The first field of that name. */
  function FirstNamed(m: Memory, fields: seq<FieldInfo>, name: Name): Option<FieldInfo> {
    if fields == [] then None
    else if VisitOf(m, fields[0]).name == name then Some(fields[0])
    else FirstNamed(m, fields[1..], name)
  }

  predicate Decoded(m: Memory, cfg: Config, f: FieldInfo) {
    var chunk := Chunk(m, cfg, f.typePtr);
    f.ty == ValueTypeOf(TypeCode(cfg, chunk)) && f.isStatic == StaticBit(chunk)
  }

  lemma {:induction false} FieldsDecoded(m: Memory, cfg: Config, slots: seq<Slot>)
    requires forall s :: s in slots && s.Real? ==> Decoded(m, cfg, s.field)
    ensures forall f :: f in FieldsIn(slots) ==> Decoded(m, cfg, f)
  {
    if slots == [] {
    } else {
      FieldsDecoded(m, cfg, slots[1..]);
    }
  }

  function NamedStop(name: Name): Visit -> bool { (v: Visit) => v.name == name }

  lemma {:induction false} StopsAtFirstNamed(m: Memory, fields: seq<FieldInfo>, name: Name)
    ensures var visits, found := Visits(m, fields, NamedStop(name)), FirstNamed(m, fields, name);
            && (found.Some? <==> visits != [] && visits[|visits| - 1].name == name)
            && (found.Some? ==> found.value in fields && visits[|visits| - 1] == VisitOf(m, found.value))
  {
    if fields == [] {
    } else {
      StopsAtFirstNamed(m, fields[1..], name);
    }
  }

  /** The lookup decodes the type again and still reports what the iterator says of that field. */
  method FieldInfoByName(m: Memory, cfg: Config, klass: nat, name: Name) returns (r: Option<(nat, ValType, bool)>)
    ensures var found := FirstNamed(m, Fields(m, cfg, klass), name);
            r == if found.None? then None else Some((found.value.offset, found.value.ty, found.value.isStatic))
  {
    var visited := ForEachField(m, cfg, klass, NamedStop(name));
    StopsAtFirstNamed(m, Fields(m, cfg, klass), name);
    if visited == [] || visited[|visited| - 1].name != name { return None; }
    var last := visited[|visited| - 1];
    var chunk := Chunk(m, cfg, last.typePtr);
    FieldsDecoded(m, cfg, SlotsOf(m, cfg, klass, ListOf(m, cfg, klass)));
    r := Some((last.offset, ValueTypeOf(TypeCode(cfg, chunk)), StaticBit(chunk)));
  }

  // ----- what a record means -----

  lemma {:induction false} ShiftIsDivision(x: nat, k: nat)
    ensures Pow2(k) > 0 && Shr(x, k) == x / Pow2(k)
    decreases k
  {
    if k == 0 {
    } else {
      ShiftIsDivision(x / 2, k - 1);
      HalfThenDivide(x, Pow2(k - 1));
    }
  }

  lemma HalfThenDivide(x: nat, c: nat)
    requires c > 0
    ensures x / 2 / c == x / (2 * c)
  {
    var y := x / 2;
    Doubled(x, y, c, y / c, y % c);
    QuotientIs(x, 2 * c, y / c, 2 * (y % c) + x % 2);
  }

  lemma Doubled(x: nat, y: nat, c: nat, q: nat, r: nat)
    requires x == 2 * y + x % 2 && y == c * q + r && r < c
    ensures x == (2 * c) * q + (2 * r + x % 2) && 2 * r + x % 2 < 2 * c
  {
  }

  /**
   Type codes: from 4 on pairs of a signed and an unsigned integer of twice the last pair's width,
   before them a byte-wide and a two-byte one, after them the floats; all others are pointer-sized.
   */
  lemma TypeCodes(tc: nat)
    ensures TypeFromCode(tc).None? <==> tc == 1
    ensures 4 <= tc <= 11 ==>
              var ty := TypeFromCode(tc).value;
              FixedWidth(ty) == Some(Pow2((tc - 4) / 2)) && if tc % 2 == 0 then Signed(ty) else Unsigned(ty)
    ensures tc in {2, 3} ==> Unsigned(TypeFromCode(tc).value) && FixedWidth(TypeFromCode(tc).value) == Some(tc - 1)
    ensures tc in {12, 13} ==> TypeFromCode(tc).value == if tc == 12 then TyF32 else TyF64
    ensures tc == 0 || tc > 13 ==> TypeFromCode(tc) == Some(TyU64)
  {
    assert Pow2(0) == 1 && Pow2(1) == 2 && Pow2(2) == 4 && Pow2(3) == 8;
  }

  /** The 32 bytes at `rec` describe the field: name, type, offset and token at their places, none of them null. */
  predicate Describes(m: Memory, cfg: Config, klass: nat, rec: nat, f: FieldInfo) {
    && m.u64(rec) == Some(f.namePtr) && m.u64(rec + 8) == Some(f.typePtr) && m.u32(rec + 28) == Some(f.token)
    && f.namePtr != 0 && f.typePtr != 0 && f.token != 0
    && m.cstr(f.namePtr).Some? && m.cstr(f.namePtr).value != []
    && DescribesOffset(OrElse(m.u32(rec + 24), 0), m.valueType(klass), f.offset)
    && DescribesType(OrElse(m.u64(f.typePtr + cfg.discrimReadAt), 0), cfg.discrimShift, f)
  }

  /** Value types do not count the sixteen bytes of object header. */
  predicate DescribesOffset(raw: nat, isValueType: bool, offset: nat) {
    if isValueType && raw >= 16 then offset + 16 == raw else offset == if isValueType then 0 else raw
  }

  /** The type's word: a plausible code `shift` bits up, the static flag in bit 4. */
  predicate DescribesType(word: nat, shift: nat, f: FieldInfo) {
    ShiftIsDivision(word, shift);
    var tc := word / Pow2(shift) % 256;
    && 1 <= tc <= 69 && (f.isStatic <==> word % 32 >= 16)
    && (if tc == 1 then f.ty == TyU64 else TypeFromCode(tc) == Some(f.ty))
  }

  lemma StaticBitOf(word: nat)
    ensures StaticBit(word) <==> word % 32 >= 16
  {
  }

  /** A slot ends the list exactly at a null name and holds a field exactly when its record describes it. */
  lemma SlotExactly(m: Memory, cfg: Config, klass: nat, list: nat, i: nat, f: FieldInfo)
    ensures var (s, rec) := (SlotAt(m, cfg, klass, list, i), list + 32 * i);
            && (s.End? <==> OrElse(m.u64(rec), 0) == 0)
            && (s == Real(f) <==> Describes(m, cfg, klass, rec, f))
  {
    var word := OrElse(m.u64(f.typePtr + cfg.discrimReadAt), 0);
    ShiftIsDivision(word, cfg.discrimShift);
    StaticBitOf(word);
  }

  lemma FieldsInCons(s: Slot, after: seq<Slot>)
    ensures FieldsIn([s] + after) ==
            match s
            case End => []
            case Garbage => FieldsIn(after)
            case Real(f) => [f] + FieldsIn(after)
  {
    assert ([s] + after)[1..] == after;
  }

  /** Up to the end mark every record counts on its own and in order; from it on none does. */
  lemma {:induction false} FieldsInAt(before: seq<Slot>, s: Slot, after: seq<Slot>)
    requires forall b :: b in before ==> !b.End?
    ensures FieldsIn(before + [s] + after) ==
            FieldsIn(before) + match s
                               case End => []
                               case Garbage => FieldsIn(after)
                               case Real(f) => [f] + FieldsIn(after)
  {
    if before == [] {
      assert before + [s] + after == [s] + after;
      FieldsInCons(s, after);
    } else {
      var rest := before[1..] + [s] + after;
      assert before + [s] + after == [before[0]] + rest;
      assert before == [before[0]] + before[1..];
      FieldsInAt(before[1..], s, after);
      FieldsInCons(before[0], rest);
      FieldsInCons(before[0], before[1..]);
    }
  }

  /** The callback sees name, offset and type of the fields in order, up to the first visit it stops at. */
  lemma {:induction false} VisitsUntil(m: Memory, fields: seq<FieldInfo>, stop: Visit -> bool)
    ensures var v := Visits(m, fields, stop);
            && |v| <= |fields|
            && (forall i :: 0 <= i < |v| ==>
                  && v[i].offset == fields[i].offset && v[i].typePtr == fields[i].typePtr
                  && (m.cstr(fields[i].namePtr).Some? ==> m.cstr(fields[i].namePtr) == Some(v[i].name)))
            && (forall i :: 0 <= i < |v| - 1 ==> !stop(v[i]))
            && (|v| < |fields| ==> v != [] && stop(v[|v| - 1]))
  {
    if fields == [] {
    } else {
      VisitsUntil(m, fields[1..], stop);
    }
  }

  /** A lookup finds the first field of that name, or there is none. */
  lemma {:induction false} FirstNamedExactly(m: Memory, fields: seq<FieldInfo>, name: Name)
    requires forall f :: f in fields ==> m.cstr(f.namePtr).Some?
    ensures FirstNamed(m, fields, name).None? <==> forall f :: f in fields ==> m.cstr(f.namePtr) != Some(name)
    ensures FirstNamed(m, fields, name).Some? ==>
              exists i :: 0 <= i < |fields| && FirstNamed(m, fields, name) == Some(fields[i])
                          && m.cstr(fields[i].namePtr) == Some(name)
                          && forall j :: 0 <= j < i ==> m.cstr(fields[j].namePtr) != Some(name)
  {
    if fields == [] {
    } else if VisitOf(m, fields[0]).name == name {
      assert FirstNamed(m, fields, name) == Some(fields[0]);
    } else {
      FirstNamedExactly(m, fields[1..], name);
      var later := FirstNamed(m, fields[1..], name);
      if later.Some? {
        var i :| 0 <= i < |fields[1..]| && later == Some(fields[1..][i]) && m.cstr(fields[1..][i].namePtr) == Some(name)
                 && forall j :: 0 <= j < i ==> m.cstr(fields[1..][j].namePtr) != Some(name);
        assert fields[i + 1] == fields[1..][i];
        assert forall j :: 0 < j < i + 1 ==> fields[j] == fields[1..][j - 1];
      }
    }
  }
}
