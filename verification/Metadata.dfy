/**
 The metadata parser (`metadata.rs`): images list ranges of types, types list ranges of fields,
 names are NUL-terminated strings of one string table. Names stay byte strings here.
 */
module Metadata {
  import opened Bytes
  import opened MemValue

  /** Byte positions and struct sizes of one metadata version. */
  datatype Layout = Layout(
    headerString: nat, headerTypes: nat, headerFields: nat, headerImages: nat, headerImagesSize: nat,
    imageSize: nat, imageTypeStart: nat, imageTypeCount: nat,
    typeSize: nat, typeName: nat, typeNamespace: nat, typeByval: nat, typeFieldStart: nat, typeFieldCount: nat,
    fieldSize: nat, fieldName: nat, fieldType: nat)

  datatype Header = Header(strings: nat, types: nat, fields: nat, images: nat, imagesSize: nat)

  datatype DumpedField = DumpedField(name: seq<Byte>, typeIndex: Option<nat>)

  datatype DumpedClass = DumpedClass(space: seq<Byte>, name: seq<Byte>, fields: seq<DumpedField>, typeIndex: nat)

  type Dump = seq<DumpedClass>

  const MAGIC: seq<Byte> := [0xAF, 0x1B, 0xB1, 0xFA]

  // ----- readers -----

  /** The `width` bytes at `pos` as a little-endian integer. */
  function LeAt(bs: seq<Byte>, pos: nat, width: nat): nat
    requires pos + width <= |bs|
    decreases |bs| - pos, width
  {
    if width == 0 then 0 else bs[pos] + 256 * LeAt(bs, pos + 1, width - 1)
  }

  function ReadUnsigned(bs: seq<Byte>, pos: nat, width: nat): Option<nat> {
    if pos + width > |bs| then None else Some(LeAt(bs, pos, width))
  }

  function ReadU32(bs: seq<Byte>, pos: nat): Option<nat> { ReadUnsigned(bs, pos, 4) }

  function ReadU16(bs: seq<Byte>, pos: nat): Option<nat> { ReadUnsigned(bs, pos, 2) }

  function ReadI32(bs: seq<Byte>, pos: nat): Option<int> {
    var r := ReadU32(bs, pos);
    if r.None? then None else Some(Unwrap(r.value, U32_LIMIT))
  }

  /** The bytes from `pos` up to the first NUL or the end of the blob. */
  function NameAt(bs: seq<Byte>, pos: nat): seq<Byte>
    decreases |bs| - pos
  {
    if pos >= |bs| || bs[pos] == 0 then [] else [bs[pos]] + NameAt(bs, pos + 1)
  }

  method ReadName(bs: seq<Byte>, pos: nat) returns (name: seq<Byte>)
    ensures name == NameAt(bs, pos)
  {
    if pos >= |bs| { return []; }
    var end := pos;
    while end < |bs| && bs[end] != 0
      invariant pos <= end <= |bs|
      invariant NameAt(bs, pos) == bs[pos..end] + NameAt(bs, end)
    {
      ConcatAssoc(bs[pos..end], [bs[end]], NameAt(bs, end + 1));
      assert bs[pos..end + 1] == bs[pos..end] + [bs[end]];
      end := end + 1;
    }
    name := bs[pos..end];
  }

  // ----- what the parser computes -----

  function ParseHeader(bs: seq<Byte>, l: Layout): Option<Header> {
    if |bs| < 4 || bs[..4] != MAGIC then None else
    var strings, types, fields, images, size :=
      ReadU32(bs, l.headerString), ReadU32(bs, l.headerTypes), ReadU32(bs, l.headerFields),
      ReadU32(bs, l.headerImages), ReadU32(bs, l.headerImagesSize);
    if strings.None? || types.None? || fields.None? || images.None? || size.None? then None
    else Some(Header(strings.value, types.value, fields.value, images.value, size.value))
  }

  /** The tables lie inside the blob and the image table fits. */
  predicate Plausible(n: nat, h: Header) {
    h.strings < n && h.types < n && h.fields < n && h.images < n && h.imagesSize != 0 && h.images + h.imagesSize <= n
  }

  /** The loop shape of the parser: what each of `count` steps pushes, in order. */
  function Collect<T>(count: nat, step: nat -> seq<T>): seq<T> {
    if count == 0 then [] else Collect(count - 1, step) + step(count - 1)
  }

  function FieldAt(bs: seq<Byte>, l: Layout, h: Header, index: nat): seq<DumpedField> {
    var at := h.fields + index * l.fieldSize;
    var name := ReadU32(bs, at + l.fieldName);
    if name.None? then [] else [DumpedField(NameAt(bs, h.strings + name.value), ReadU32(bs, at + l.fieldType))]
  }

  function FieldSteps(bs: seq<Byte>, l: Layout, h: Header, first: nat): nat -> seq<DumpedField> {
    (f: nat) => FieldAt(bs, l, h, first + f)
  }

  /** The readable fields among `count` from index `first`. */
  function FieldsFrom(bs: seq<Byte>, l: Layout, h: Header, first: nat, count: nat): seq<DumpedField> {
    Collect(count, FieldSteps(bs, l, h, first))
  }

  /** The words of a type entry; without a name index the entry is skipped. */
  datatype TypeWords = TypeWords(name: nat, space: nat, first: Option<int>, count: nat, byval: nat)

  function WordsAt(bs: seq<Byte>, l: Layout, at: nat): Option<TypeWords> {
    var name := ReadU32(bs, at + l.typeName);
    if name.None? then None else
    Some(TypeWords(name.value, OrElse(ReadU32(bs, at + l.typeNamespace), 0), ReadI32(bs, at + l.typeFieldStart),
                   OrElse(ReadU16(bs, at + l.typeFieldCount), 0), OrElse(ReadU32(bs, at + l.typeByval), 0)))
  }

  function ClassAt(bs: seq<Byte>, l: Layout, h: Header, w: TypeWords): DumpedClass {
    var fields := if w.first.Some? && w.first.value >= 0 then FieldsFrom(bs, l, h, w.first.value, w.count) else [];
    DumpedClass(NameAt(bs, h.strings + w.space), NameAt(bs, h.strings + w.name), fields, w.byval)
  }

  function TypeAt(bs: seq<Byte>, l: Layout, h: Header, index: nat): Dump {
    var words := WordsAt(bs, l, h.types + index * l.typeSize);
    if words.None? then [] else [ClassAt(bs, l, h, words.value)]
  }

  function TypeSteps(bs: seq<Byte>, l: Layout, h: Header, first: nat): nat -> Dump {
    (t: nat) => TypeAt(bs, l, h, first + t)
  }

  function TypesFrom(bs: seq<Byte>, l: Layout, h: Header, first: nat, count: nat): Dump {
    Collect(count, TypeSteps(bs, l, h, first))
  }

  function ImageAt(bs: seq<Byte>, l: Layout, h: Header, i: nat): Dump {
    var at := h.images + i * l.imageSize;
    var first := ReadI32(bs, at + l.imageTypeStart);
    if first.None? || first.value < 0 then []
    else TypesFrom(bs, l, h, first.value, OrElse(ReadU32(bs, at + l.imageTypeCount), 0))
  }

  function ImageSteps(bs: seq<Byte>, l: Layout, h: Header): nat -> Dump { (i: nat) => ImageAt(bs, l, h, i) }

  function ImagesFrom(bs: seq<Byte>, l: Layout, h: Header, count: nat): Dump {
    Collect(count, ImageSteps(bs, l, h))
  }

  function ImageCount(l: Layout, h: Header): nat { h.imagesSize / (if l.imageSize == 0 then 1 else l.imageSize) }

  function Parsed(bs: seq<Byte>, l: Layout): Option<Dump> {
    var h := ParseHeader(bs, l);
    if h.None? || !Plausible(|bs|, h.value) then None
    else Some(ImagesFrom(bs, l, h.value, ImageCount(l, h.value)))
  }

  // ----- the loops of the source -----

  method ParseField(bs: seq<Byte>, l: Layout, h: Header, index: nat) returns (fields: seq<DumpedField>)
    ensures fields == FieldAt(bs, l, h, index)
  {
    var at := h.fields + index * l.fieldSize;
    var nameIndex := ReadU32(bs, at + l.fieldName);
    if nameIndex.None? { return []; }
    var name := ReadName(bs, h.strings + nameIndex.value);
    fields := [DumpedField(name, ReadU32(bs, at + l.fieldType))];
  }

  method ParseFields(bs: seq<Byte>, l: Layout, h: Header, first: nat, count: nat) returns (fields: seq<DumpedField>)
    ensures fields == FieldsFrom(bs, l, h, first, count)
  {
    fields := [];
    for f := 0 to count
      invariant fields == Collect(f, FieldSteps(bs, l, h, first))
    {
      var field := ParseField(bs, l, h, first + f);
      fields := fields + field;
    }
  }

  method ParseType(bs: seq<Byte>, l: Layout, h: Header, index: nat) returns (classes: Dump)
    ensures classes == TypeAt(bs, l, h, index)
  {
    var at := h.types + index * l.typeSize;
    var nameIndex := ReadU32(bs, at + l.typeName);
    if nameIndex.None? { return []; }
    var spaceIndex := OrElse(ReadU32(bs, at + l.typeNamespace), 0);
    var byval := OrElse(ReadU32(bs, at + l.typeByval), 0);
    var fieldStart := ReadI32(bs, at + l.typeFieldStart);
    var fieldCount := OrElse(ReadU16(bs, at + l.typeFieldCount), 0);
    var fields: seq<DumpedField> := [];
    if fieldStart.Some? && fieldStart.value >= 0 {
      fields := ParseFields(bs, l, h, fieldStart.value, fieldCount);
    }
    var space := ReadName(bs, h.strings + spaceIndex);
    var name := ReadName(bs, h.strings + nameIndex.value);
    classes := [DumpedClass(space, name, fields, byval)];
  }

  method ParseTypes(bs: seq<Byte>, l: Layout, h: Header, first: nat, count: nat, soFar: Dump) returns (classes: Dump)
    ensures classes == soFar + TypesFrom(bs, l, h, first, count)
  {
    classes := soFar;
    ghost var steps := TypeSteps(bs, l, h, first);
    for t := 0 to count
      invariant classes == soFar + Collect(t, steps)
    {
      var parsed := ParseType(bs, l, h, first + t);
      ConcatAssoc(soFar, Collect(t, steps), parsed);
      classes := classes + parsed;
    }
  }

  method ParseImage(bs: seq<Byte>, l: Layout, h: Header, i: nat, soFar: Dump) returns (classes: Dump)
    ensures classes == soFar + ImageAt(bs, l, h, i)
  {
    var at := h.images + i * l.imageSize;
    var first := ReadI32(bs, at + l.imageTypeStart);
    if first.None? || first.value < 0 { return soFar; }
    var count := OrElse(ReadU32(bs, at + l.imageTypeCount), 0);
    classes := ParseTypes(bs, l, h, first.value, count, soFar);
  }

  method ParseMetadata(bs: seq<Byte>, l: Layout) returns (dump: Option<Dump>)
    ensures dump == Parsed(bs, l)
  {
    var header := ParseHeader(bs, l);
    if header.None? || !Plausible(|bs|, header.value) { return None; }
    var h := header.value;
    var classes: Dump := [];
    ghost var steps := ImageSteps(bs, l, h);
    for i := 0 to ImageCount(l, h)
      invariant classes == Collect(i, steps)
    {
      classes := ParseImage(bs, l, h, i, classes);
    }
    dump := Some(classes);
  }

  // ----- what a blob represents -----

  /** A field, type and image of the database, with the table indices that lead to it. */
  datatype FieldDb = FieldDb(nameIndex: nat, name: seq<Byte>, typeIndex: nat)
  datatype TypeDb = TypeDb(nameIndex: nat, name: seq<Byte>, spaceIndex: nat, space: seq<Byte>, byval: nat,
                           fieldStart: nat, fields: seq<FieldDb>)
  datatype ImageDb = ImageDb(typeStart: nat, types: seq<TypeDb>)

  /** The blob stores `v` in `width` little-endian bytes at `pos`; `StoredBytes` says it in bytes. */
  predicate Stores(bs: seq<Byte>, pos: nat, v: nat, width: nat) {
    ReadUnsigned(bs, pos, width) == Some(v)
  }

  /** The NUL-terminated string `name` is stored at `pos`. */
  predicate StoresName(bs: seq<Byte>, pos: nat, name: seq<Byte>) {
    && pos + |name| < |bs| && bs[pos..pos + |name|] == name && bs[pos + |name|] == 0
    && forall i :: 0 <= i < |name| ==> name[i] != 0
  }

  predicate StoresField(bs: seq<Byte>, l: Layout, h: Header, index: nat, f: FieldDb) {
    var at := h.fields + index * l.fieldSize;
    && Stores(bs, at + l.fieldName, f.nameIndex, 4) && StoresName(bs, h.strings + f.nameIndex, f.name)
    && Stores(bs, at + l.fieldType, f.typeIndex, 4)
  }

  predicate StoresType(bs: seq<Byte>, l: Layout, h: Header, index: nat, t: TypeDb) {
    var at := h.types + index * l.typeSize;
    && Stores(bs, at + l.typeName, t.nameIndex, 4) && StoresName(bs, h.strings + t.nameIndex, t.name)
    && Stores(bs, at + l.typeNamespace, t.spaceIndex, 4) && StoresName(bs, h.strings + t.spaceIndex, t.space)
    && Stores(bs, at + l.typeByval, t.byval, 4)
    && t.fieldStart < 0x8000_0000 && Stores(bs, at + l.typeFieldStart, t.fieldStart, 4)
    && Stores(bs, at + l.typeFieldCount, |t.fields|, 2)
    && forall f :: 0 <= f < |t.fields| ==> StoresField(bs, l, h, t.fieldStart + f, t.fields[f])
  }

  predicate StoresImage(bs: seq<Byte>, l: Layout, h: Header, i: nat, image: ImageDb) {
    var at := h.images + i * l.imageSize;
    && image.typeStart < 0x8000_0000 && Stores(bs, at + l.imageTypeStart, image.typeStart, 4)
    && Stores(bs, at + l.imageTypeCount, |image.types|, 4)
    && forall t :: 0 <= t < |image.types| ==> StoresType(bs, l, h, image.typeStart + t, image.types[t])
  }

  predicate StoresHeader(bs: seq<Byte>, l: Layout, h: Header) {
    && |bs| >= 4 && bs[..4] == MAGIC
    && Stores(bs, l.headerString, h.strings, 4) && Stores(bs, l.headerTypes, h.types, 4)
    && Stores(bs, l.headerFields, h.fields, 4) && Stores(bs, l.headerImages, h.images, 4)
    && Stores(bs, l.headerImagesSize, h.imagesSize, 4)
  }

  /** The blob is an encoding of the database under the layout. */
  predicate Represents(bs: seq<Byte>, l: Layout, h: Header, db: seq<ImageDb>) {
    && StoresHeader(bs, l, h) && Plausible(|bs|, h) && ImageCount(l, h) == |db|
    && forall i :: 0 <= i < |db| ==> StoresImage(bs, l, h, i, db[i])
  }

  function FieldsOf(fields: seq<FieldDb>): seq<DumpedField> {
    seq(|fields|, i requires 0 <= i < |fields| => DumpedField(fields[i].name, Some(fields[i].typeIndex)))
  }

  function ClassOf(t: TypeDb): DumpedClass { DumpedClass(t.space, t.name, FieldsOf(t.fields), t.byval) }

  function ClassesOf(types: seq<TypeDb>): Dump {
    seq(|types|, i requires 0 <= i < |types| => ClassOf(types[i]))
  }

  /** All classes, image after image. */
  function DumpOf(db: seq<ImageDb>): Dump {
    if db == [] then [] else DumpOf(db[..|db| - 1]) + ClassesOf(db[|db| - 1].types)
  }

  lemma {:induction false} CollectSingles<T>(items: seq<T>, step: nat -> seq<T>)
    requires forall i: nat :: i < |items| ==> step(i) == [items[i]]
    ensures Collect(|items|, step) == items
    decreases |items|
  {
    if items == [] {
    } else {
      var k: nat := |items| - 1;
      CollectSingles(items[..k], step);
      assert step(k) == [items[k]];
    }
  }

  lemma {:induction false} CollectImages(db: seq<ImageDb>, step: nat -> Dump)
    requires forall i: nat :: i < |db| ==> step(i) == ClassesOf(db[i].types)
    ensures Collect(|db|, step) == DumpOf(db)
    decreases |db|
  {
    if db == [] {
    } else {
      var k: nat := |db| - 1;
      CollectImages(db[..k], step);
      assert step(k) == ClassesOf(db[k].types);
    }
  }

  lemma {:induction false} LeAtIsLeNat(bs: seq<Byte>, pos: nat, width: nat)
    requires pos + width <= |bs|
    ensures LeAt(bs, pos, width) == LeNat(bs[pos..pos + width])
    decreases width
  {
    if width == 0 {
    } else {
      LeAtIsLeNat(bs, pos + 1, width - 1);
      assert bs[pos..pos + width][1..] == bs[pos + 1..pos + 1 + (width - 1)];
    }
  }

  lemma StoredBytes(bs: seq<Byte>, pos: nat, v: nat, width: nat)
    ensures Stores(bs, pos, v, width) <==>
            v < Capacity(width) && pos + width <= |bs| && bs[pos..pos + width] == LeBytes(v, width)
  {
    if pos + width <= |bs| {
      var raw := bs[pos..pos + width];
      LeAtIsLeNat(bs, pos, width);
      LeBytesOfLeNat(raw);
      if v < Capacity(width) { LeRoundTrip(v, width); }
    }
  }

  lemma {:induction false} StoredNameIsRead(bs: seq<Byte>, pos: nat, name: seq<Byte>)
    requires StoresName(bs, pos, name)
    ensures NameAt(bs, pos) == name
    decreases |name|
  {
    if name == [] {
    } else {
      assert bs[pos] == bs[pos..pos + |name|][0];
      assert bs[pos + 1..pos + 1 + |name[1..]|] == bs[pos..pos + |name|][1..];
      StoredNameIsRead(bs, pos + 1, name[1..]);
    }
  }

  lemma FieldRead(bs: seq<Byte>, l: Layout, h: Header, index: nat, f: FieldDb)
    requires StoresField(bs, l, h, index, f)
    ensures FieldAt(bs, l, h, index) == [DumpedField(f.name, Some(f.typeIndex))]
  {
    StoredNameIsRead(bs, h.strings + f.nameIndex, f.name);
  }

  lemma FieldsRead(bs: seq<Byte>, l: Layout, h: Header, first: nat, fields: seq<FieldDb>)
    requires forall f :: 0 <= f < |fields| ==> StoresField(bs, l, h, first + f, fields[f])
    ensures FieldsFrom(bs, l, h, first, |fields|) == FieldsOf(fields)
  {
    var items, step := FieldsOf(fields), FieldSteps(bs, l, h, first);
    forall f: nat | f < |fields| ensures step(f) == [items[f]] {
      FieldRead(bs, l, h, first + f, fields[f]);
    }
    CollectSingles(items, step);
  }

  lemma TypeNamesRead(bs: seq<Byte>, l: Layout, h: Header, index: nat, t: TypeDb)
    requires StoresType(bs, l, h, index, t)
    ensures NameAt(bs, h.strings + t.nameIndex) == t.name && NameAt(bs, h.strings + t.spaceIndex) == t.space
  {
    StoredNameIsRead(bs, h.strings + t.nameIndex, t.name);
    StoredNameIsRead(bs, h.strings + t.spaceIndex, t.space);
  }

  lemma TypeFieldsRead(bs: seq<Byte>, l: Layout, h: Header, index: nat, t: TypeDb)
    requires StoresType(bs, l, h, index, t)
    ensures FieldsFrom(bs, l, h, t.fieldStart, |t.fields|) == FieldsOf(t.fields)
  {
    FieldsRead(bs, l, h, t.fieldStart, t.fields);
  }

  lemma TypeRead(bs: seq<Byte>, l: Layout, h: Header, index: nat, t: TypeDb)
    requires StoresType(bs, l, h, index, t)
    ensures TypeAt(bs, l, h, index) == [ClassOf(t)]
  {
    TypeEntryRead(bs, l, h, index, t);
    ClassRead(bs, l, h, index, t);
    TypeOfWords(bs, l, h, index, WordsOf(t));
  }

  lemma TypeEntryRead(bs: seq<Byte>, l: Layout, h: Header, index: nat, t: TypeDb)
    requires StoresType(bs, l, h, index, t)
    ensures WordsAt(bs, l, h.types + index * l.typeSize) == Some(WordsOf(t))
  {
    TypeWordsRead(bs, l, h.types + index * l.typeSize, t);
  }

  lemma TypeOfWords(bs: seq<Byte>, l: Layout, h: Header, index: nat, w: TypeWords)
    requires WordsAt(bs, l, h.types + index * l.typeSize) == Some(w)
    ensures TypeAt(bs, l, h, index) == [ClassAt(bs, l, h, w)]
  {
  }

  lemma ClassRead(bs: seq<Byte>, l: Layout, h: Header, index: nat, t: TypeDb)
    requires StoresType(bs, l, h, index, t)
    ensures ClassAt(bs, l, h, WordsOf(t)) == ClassOf(t)
  {
    TypeNamesRead(bs, l, h, index, t);
    TypeFieldsRead(bs, l, h, index, t);
    ClassBuilt(bs, l, h, WordsOf(t), t);
  }

  function WordsOf(t: TypeDb): TypeWords {
    TypeWords(t.nameIndex, t.spaceIndex, Some(t.fieldStart), |t.fields|, t.byval)
  }

  lemma TypeWordsRead(bs: seq<Byte>, l: Layout, at: nat, t: TypeDb)
    requires Stores(bs, at + l.typeName, t.nameIndex, 4) && Stores(bs, at + l.typeNamespace, t.spaceIndex, 4)
    requires t.fieldStart < 0x8000_0000 && Stores(bs, at + l.typeFieldStart, t.fieldStart, 4)
    requires Stores(bs, at + l.typeFieldCount, |t.fields|, 2) && Stores(bs, at + l.typeByval, t.byval, 4)
    ensures WordsAt(bs, l, at) == Some(WordsOf(t))
  {
  }

  lemma ClassBuilt(bs: seq<Byte>, l: Layout, h: Header, w: TypeWords, t: TypeDb)
    requires w == WordsOf(t)
    requires NameAt(bs, h.strings + t.nameIndex) == t.name && NameAt(bs, h.strings + t.spaceIndex) == t.space
    requires FieldsFrom(bs, l, h, t.fieldStart, |t.fields|) == FieldsOf(t.fields)
    ensures ClassAt(bs, l, h, w) == ClassOf(t)
  {
  }

  lemma TypesRead(bs: seq<Byte>, l: Layout, h: Header, first: nat, types: seq<TypeDb>)
    requires forall t :: 0 <= t < |types| ==> StoresType(bs, l, h, first + t, types[t])
    ensures TypesFrom(bs, l, h, first, |types|) == ClassesOf(types)
  {
    var items, step := ClassesOf(types), TypeSteps(bs, l, h, first);
    forall t: nat | t < |types| ensures step(t) == [items[t]] {
      TypeRead(bs, l, h, first + t, types[t]);
    }
    CollectSingles(items, step);
  }

  lemma ImageRead(bs: seq<Byte>, l: Layout, h: Header, i: nat, image: ImageDb)
    requires StoresImage(bs, l, h, i, image)
    ensures ImageAt(bs, l, h, i) == ClassesOf(image.types)
  {
    TypesRead(bs, l, h, image.typeStart, image.types);
  }

  lemma ImagesRead(bs: seq<Byte>, l: Layout, h: Header, db: seq<ImageDb>)
    requires forall i :: 0 <= i < |db| ==> StoresImage(bs, l, h, i, db[i])
    ensures ImagesFrom(bs, l, h, |db|) == DumpOf(db)
  {
    var step := ImageSteps(bs, l, h);
    forall i: nat | i < |db| ensures step(i) == ClassesOf(db[i].types) {
      ImageRead(bs, l, h, i, db[i]);
    }
    CollectImages(db, step);
  }

  /** Parsing an encoded database returns exactly that database, in order. */
  lemma ParseReturnsDatabase(bs: seq<Byte>, l: Layout, h: Header, db: seq<ImageDb>)
    requires Represents(bs, l, h, db)
    ensures Parsed(bs, l) == Some(DumpOf(db))
  {
    ImagesRead(bs, l, h, db);
  }

  // ----- any blob -----

  /** The word of `width` bytes at `pos`, if the blob reaches that far. */
  function Word(bs: seq<Byte>, pos: nat, width: nat): Option<nat> {
    if pos + width <= |bs| then Some(LeNat(bs[pos..pos + width])) else None
  }

  lemma WordRead(bs: seq<Byte>, pos: nat, width: nat)
    ensures ReadUnsigned(bs, pos, width) == Word(bs, pos, width)
  {
    if pos + width <= |bs| { LeAtIsLeNat(bs, pos, width); }
  }

  lemma SignedWordRead(bs: seq<Byte>, pos: nat)
    ensures Word(bs, pos, 4).None? ==> ReadI32(bs, pos) == None
    ensures Word(bs, pos, 4).Some? && Word(bs, pos, 4).value < 0x8000_0000 ==>
              ReadI32(bs, pos) == Some(Word(bs, pos, 4).value as int)
    ensures Word(bs, pos, 4).Some? && Word(bs, pos, 4).value >= 0x8000_0000 ==>
              ReadI32(bs, pos).Some? && ReadI32(bs, pos).value < 0
  {
    WordRead(bs, pos, 4);
    if pos + 4 <= |bs| { LeNatFits(bs[pos..pos + 4]); }
  }

  /** A name is the bytes up to the first NUL, or to the end of the blob, and empty past it. */
  lemma {:induction false} NameExactly(bs: seq<Byte>, pos: nat)
    ensures var name := NameAt(bs, pos);
            if pos > |bs| then name == []
            else && pos + |name| <= |bs| && name == bs[pos..pos + |name|] && 0 !in name
                 && (pos + |name| < |bs| ==> bs[pos + |name|] == 0)
    decreases |bs| - pos
  {
    if pos >= |bs| || bs[pos] == 0 {
    } else {
      NameExactly(bs, pos + 1);
      var n := |NameAt(bs, pos + 1)|;
      assert bs[pos..pos + 1 + n] == [bs[pos]] + bs[pos + 1..pos + 1 + n];
    }
  }

  /** Accepted are exactly the blobs with the magic and five header words that place every table inside. */
  lemma AcceptedExactly(bs: seq<Byte>, l: Layout)
    ensures Parsed(bs, l).Some? <==>
            && |bs| >= 4 && bs[0] == 0xAF && bs[1] == 0x1B && bs[2] == 0xB1 && bs[3] == 0xFA
            && OrElse(Word(bs, l.headerString, 4), |bs|) < |bs|
            && OrElse(Word(bs, l.headerTypes, 4), |bs|) < |bs|
            && OrElse(Word(bs, l.headerFields, 4), |bs|) < |bs|
            && OrElse(Word(bs, l.headerImages, 4), |bs|) < |bs|
            && OrElse(Word(bs, l.headerImagesSize, 4), 0) > 0
            && OrElse(Word(bs, l.headerImages, 4), |bs|) + OrElse(Word(bs, l.headerImagesSize, 4), 0) <= |bs|
  {
    WordRead(bs, l.headerString, 4);
    WordRead(bs, l.headerTypes, 4);
    WordRead(bs, l.headerFields, 4);
    WordRead(bs, l.headerImages, 4);
    WordRead(bs, l.headerImagesSize, 4);
    if |bs| >= 4 {
      assert bs[..4] == [bs[0], bs[1], bs[2], bs[3]];
      assert MAGIC[0] == 0xAF && MAGIC[1] == 0x1B && MAGIC[2] == 0xB1 && MAGIC[3] == 0xFA;
    }
  }

  /** As many whole image entries as the table's size holds, one per byte when their size is zero. */
  lemma ImagesCounted(l: Layout, h: Header)
    ensures l.imageSize == 0 ==> ImageCount(l, h) == h.imagesSize
    ensures l.imageSize > 0 ==>
              ImageCount(l, h) * l.imageSize <= h.imagesSize < ImageCount(l, h) * l.imageSize + l.imageSize
  {
    assert l.imageSize == 0 ==> h.imagesSize / 1 == h.imagesSize;
  }

  /** A field entry without a readable name index is skipped; a type index that is out of reach is unknown. */
  lemma FieldExactly(bs: seq<Byte>, l: Layout, h: Header, index: nat)
    ensures var at := h.fields + l.fieldSize * index;
            var name := Word(bs, at + l.fieldName, 4);
            FieldAt(bs, l, h, index) ==
            if name.None? then []
            else [DumpedField(NameAt(bs, h.strings + name.value), Word(bs, at + l.fieldType, 4))]
  {
    assert index * l.fieldSize == l.fieldSize * index;
    WordRead(bs, h.fields + index * l.fieldSize + l.fieldName, 4);
    WordRead(bs, h.fields + index * l.fieldSize + l.fieldType, 4);
  }

  /** Fields of a type whose first index is missing or negative, or whose count is missing: none. */
  lemma TypeFieldsExactly(bs: seq<Byte>, l: Layout, h: Header, at: nat, w: TypeWords)
    requires WordsAt(bs, l, at) == Some(w)
    ensures var first, count := OrElse(Word(bs, at + l.typeFieldStart, 4), 0x8000_0000),
                                OrElse(Word(bs, at + l.typeFieldCount, 2), 0);
            ClassAt(bs, l, h, w).fields == if first < 0x8000_0000 then FieldsFrom(bs, l, h, first, count) else []
  {
    SignedWordRead(bs, at + l.typeFieldStart);
    WordRead(bs, at + l.typeFieldCount, 2);
  }

  /** The words of a type entry: unreadable without the name index, other missing words count as zero. */
  lemma WordsExactly(bs: seq<Byte>, l: Layout, at: nat)
    ensures WordsAt(bs, l, at).None? <==> Word(bs, at + l.typeName, 4).None?
    ensures WordsAt(bs, l, at).Some? ==>
              var w := WordsAt(bs, l, at).value;
              && Some(w.name) == Word(bs, at + l.typeName, 4)
              && w.space == OrElse(Word(bs, at + l.typeNamespace, 4), 0)
              && w.byval == OrElse(Word(bs, at + l.typeByval, 4), 0)
  {
    WordRead(bs, at + l.typeName, 4);
    WordRead(bs, at + l.typeNamespace, 4);
    WordRead(bs, at + l.typeByval, 4);
  }

  /** A type entry is skipped exactly when its words are unreadable; its names lie in the string table. */
  lemma TypeExactly(bs: seq<Byte>, l: Layout, h: Header, index: nat)
    ensures var words := WordsAt(bs, l, h.types + l.typeSize * index);
            if words.None? then TypeAt(bs, l, h, index) == []
            else
              && |TypeAt(bs, l, h, index)| == 1
              && var c := TypeAt(bs, l, h, index)[0];
                 && c.name == NameAt(bs, h.strings + words.value.name)
                 && c.space == NameAt(bs, h.strings + words.value.space)
                 && c.typeIndex == words.value.byval
  {
    assert index * l.typeSize == l.typeSize * index;
  }

  /** An image lists the types of its range; a first index that is missing or negative, or a missing count, lists none. */
  lemma ImageExactly(bs: seq<Byte>, l: Layout, h: Header, i: nat)
    ensures var at := h.images + l.imageSize * i;
            var first, count := OrElse(Word(bs, at + l.imageTypeStart, 4), 0x8000_0000),
                                OrElse(Word(bs, at + l.imageTypeCount, 4), 0);
            ImageAt(bs, l, h, i) == if first < 0x8000_0000 then TypesFrom(bs, l, h, first, count) else []
  {
    var at := h.images + i * l.imageSize;
    assert i * l.imageSize == l.imageSize * i;
    SignedWordRead(bs, at + l.imageTypeStart);
    WordRead(bs, at + l.imageTypeCount, 4);
  }

  /** Entries are listed in index order. */
  lemma {:induction false} CollectJoins<T>(count: nat, more: nat, step: nat -> seq<T>, later: nat -> seq<T>)
    requires forall i: nat :: later(i) == step(count + i)
    ensures Collect(count + more, step) == Collect(count, step) + Collect(more, later)
    decreases more
  {
    if more == 0 {
    } else {
      CollectJoins(count, more - 1, step, later);
      assert later(more - 1) == step(count + more - 1);
    }
  }

  // ----- finding the blob -----

  predicate MagicAt(bs: seq<Byte>, i: nat) { i + 4 <= |bs| && bs[i..i + 4] == MAGIC }

  type Layouts = nat -> Option<Layout>

  /** The dump at offset `i`, when a supported, non-empty metadata blob starts there. */
  function DumpAt(bs: seq<Byte>, i: nat, layoutFor: Layouts): Option<Dump>
    requires i <= |bs|
  {
    if !MagicAt(bs, i) then None else
    var version := ReadU32(bs, i + 4);
    if version.None? then None else
    var l := layoutFor(version.value);
    if l.None? then None else
    var dump := Parsed(bs[i..], l.value);
    if dump.None? || dump.value == [] then None else dump
  }

  /** A dump is found at the magic, for a supported version, when the blob from there on parses to some classes. */
  lemma DumpAtExactly(bs: seq<Byte>, i: nat, layoutFor: Layouts, dump: Dump)
    requires i <= |bs|
    ensures DumpAt(bs, i, layoutFor) == Some(dump) <==>
            && i + 8 <= |bs| && bs[i..i + 4] == [0xAF, 0x1B, 0xB1, 0xFA]
            && var l := layoutFor(LeNat(bs[i + 4..i + 8]));
               l.Some? && Parsed(bs[i..], l.value) == Some(dump) && |dump| > 0
  {
    WordRead(bs, i + 4, 4);
  }

  method FindMagicOffsets(bs: seq<Byte>) returns (offsets: seq<nat>)
    ensures forall k :: 0 <= k < |offsets| ==> MagicAt(bs, offsets[k])
    ensures forall i: nat :: MagicAt(bs, i) ==> i in offsets
    ensures forall j, k :: 0 <= j < k < |offsets| ==> offsets[j] < offsets[k]
  {
    offsets := [];
    if |bs| < 4 { return; }
    for i := 0 to |bs| - 3
      invariant forall k :: 0 <= k < |offsets| ==> MagicAt(bs, offsets[k]) && offsets[k] < i
      invariant forall j: nat :: j < i && MagicAt(bs, j) ==> j in offsets
      invariant forall j, k :: 0 <= j < k < |offsets| ==> offsets[j] < offsets[k]
    {
      if bs[i..i + 4] == MAGIC { offsets := offsets + [i]; }
    }
  }

  /** One candidate offset. */
  method ParseAt(bs: seq<Byte>, off: nat, layoutFor: Layouts) returns (dump: Option<Dump>)
    requires MagicAt(bs, off)
    ensures dump == DumpAt(bs, off, layoutFor)
  {
    var version := ReadU32(bs, off + 4);
    if version.None? { return None; }
    var l := layoutFor(version.value);
    if l.None? { return None; }
    dump := ParseMetadata(bs[off..], l.value);
    if dump.Some? && dump.value == [] { dump := None; }
  }

  /** The first offset at which a blob parses, or nothing if there is none. */
  method FindAndParse(bs: seq<Byte>, layoutFor: Layouts) returns (r: Option<(nat, Dump)>)
    ensures r.Some? ==> r.value.0 <= |bs| && DumpAt(bs, r.value.0, layoutFor) == Some(r.value.1)
    ensures forall i: nat :: i <= |bs| && DumpAt(bs, i, layoutFor).Some? ==> r.Some? && r.value.0 <= i
  {
    var offsets := FindMagicOffsets(bs);
    var k := 0;
    while k < |offsets|
      invariant k <= |offsets|
      invariant forall j :: 0 <= j < k ==> DumpAt(bs, offsets[j], layoutFor).None?
    {
      var dump := ParseAt(bs, offsets[k], layoutFor);
      if dump.Some? { return Some((offsets[k], dump.value)); }
      k := k + 1;
    }
    r := None;
  }

  /** The magic cannot overlap itself, so none straddles the seam to a blob that starts with it. */
  lemma NoMagicBefore(before: seq<Byte>, blob: seq<Byte>, i: nat)
    requires |blob| >= 4 && blob[..4] == MAGIC && i < |before|
    requires !MagicAt(before, i)
    ensures !MagicAt(before + blob, i)
  {
    var all := before + blob;
    if i + 4 <= |before| {
      assert all[i..i + 4] == before[i..i + 4];
    } else {
      var k := |before| - i;
      assert all[|before|] == blob[..4][0];
      assert all[i..i + 4][k] == 0xAF != MAGIC[k];
    }
  }

  /** A supported, non-empty encoded database is the dump at the start of its blob. */
  lemma DumpAtStart(blob: seq<Byte>, l: Layout, h: Header, db: seq<ImageDb>, version: nat, layoutFor: Layouts)
    requires Represents(blob, l, h, db) && DumpOf(db) != []
    requires Stores(blob, 4, version, 4) && layoutFor(version) == Some(l)
    ensures DumpAt(blob, 0, layoutFor) == Some(DumpOf(db))
  {
    ParseReturnsDatabase(blob, l, h, db);
    assert blob[0..] == blob && blob[0..4] == blob[..4];
  }

  lemma {:induction false} LeAtShifts(before: seq<Byte>, blob: seq<Byte>, pos: nat, width: nat)
    requires pos + width <= |blob|
    ensures LeAt(before + blob, |before| + pos, width) == LeAt(blob, pos, width)
    decreases width
  {
    if width == 0 {
    } else {
      LeAtShifts(before, blob, pos + 1, width - 1);
    }
  }

  /** What is parsed at an offset depends on the bytes from there on only. */
  lemma DumpAtShifts(before: seq<Byte>, blob: seq<Byte>, layoutFor: Layouts)
    ensures DumpAt(before + blob, |before|, layoutFor) == DumpAt(blob, 0, layoutFor)
  {
    var all := before + blob;
    assert all[|before|..] == blob == blob[0..];
    if |blob| >= 4 {
      assert all[|before|..|before| + 4] == blob[0..4];
    }
    if |blob| >= 8 { LeAtShifts(before, blob, 4, 4); }
  }

  /** A blob behind any bytes that hold no magic is found at its offset and parsed as if alone. */
  lemma Relocation(before: seq<Byte>, blob: seq<Byte>, l: Layout, h: Header, db: seq<ImageDb>, version: nat,
                   layoutFor: Layouts)
    requires Represents(blob, l, h, db) && DumpOf(db) != []
    requires Stores(blob, 4, version, 4) && layoutFor(version) == Some(l)
    requires forall i: nat :: !MagicAt(before, i)
    ensures DumpAt(before + blob, |before|, layoutFor) == Some(DumpOf(db))
    ensures forall i: nat :: i < |before| ==> DumpAt(before + blob, i, layoutFor) == None
  {
    DumpAtStart(blob, l, h, db, version, layoutFor);
    DumpAtShifts(before, blob, layoutFor);
    forall i: nat | i < |before| ensures DumpAt(before + blob, i, layoutFor) == None {
      NoMagicBefore(before, blob, i);
    }
  }
}
