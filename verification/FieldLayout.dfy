/**
 Version-filtered struct layouts (`metadata.rs`): the offset of a named field and the size of
 the struct count only the fields that exist in the given metadata version.
 */
module FieldLayout {
  import opened Bytes

  datatype FieldDef = FieldDef(name: string, size: nat, minVersion: Option<nat>, maxVersion: Option<nat>)

  type Table = seq<FieldDef>

  predicate Present(version: nat, f: FieldDef) {
    && (f.minVersion.Some? ==> version >= f.minVersion.value)
    && (f.maxVersion.Some? ==> version <= f.maxVersion.value)
  }

  /** A field is absent exactly from the versions below its first and above its last one. */
  lemma AbsentExactly(version: nat, f: FieldDef)
    ensures !Present(version, f) <==>
            || (exists first :: f.minVersion == Some(first) && version < first)
            || (exists last :: f.maxVersion == Some(last) && last < version)
  {
    if f.minVersion.Some? && version < f.minVersion.value { assert f.minVersion == Some(f.minVersion.value); }
    if f.maxVersion.Some? && version > f.maxVersion.value { assert f.maxVersion == Some(f.maxVersion.value); }
  }

  predicate DistinctNames(t: Table) {
    forall i, j :: 0 <= i < j < |t| ==> t[i].name != t[j].name
  }

  // ----- reference: drop the absent fields first -----

  function Filtered(version: nat, t: Table): Table {
    if t == [] then [] else (if Present(version, t[0]) then [t[0]] else []) + Filtered(version, t[1..])
  }

  function TotalSize(t: Table): nat {
    if t == [] then 0 else t[0].size + TotalSize(t[1..])
  }

  /** Where the present fields before entry `i` end. */
  function Start(version: nat, t: Table, i: nat): nat
    requires i <= |t|
  {
    TotalSize(Filtered(version, t[..i]))
  }

  /** Entry of that name, or the table size. */
  function IndexOf(t: Table, name: string): (i: nat)
    ensures i <= |t| && (i < |t| ==> t[i].name == name)
    ensures forall j :: 0 <= j < i ==> t[j].name != name
  {
    if t == [] || t[0].name == name then 0 else 1 + IndexOf(t[1..], name)
  }

  lemma {:induction false} FilteredAppend(version: nat, a: Table, b: Table)
    ensures Filtered(version, a + b) == Filtered(version, a) + Filtered(version, b)
  {
    if a == [] {
      assert a + b == b;
    } else {
      FilteredAppend(version, a[1..], b);
      assert (a + b)[1..] == a[1..] + b;
      ConcatAssoc(if Present(version, a[0]) then [a[0]] else [], Filtered(version, a[1..]), Filtered(version, b));
    }
  }

  lemma {:induction false} TotalSizeAppend(a: Table, b: Table)
    ensures TotalSize(a + b) == TotalSize(a) + TotalSize(b)
  {
    if a == [] {
      assert a + b == b;
    } else {
      TotalSizeAppend(a[1..], b);
      assert (a + b)[1..] == a[1..] + b;
    }
  }

  /** A present field starts where the one before it ends; an absent one takes no room. */
  lemma StartStep(version: nat, t: Table, i: nat)
    requires i < |t|
    ensures Start(version, t, i + 1) == Start(version, t, i) + if Present(version, t[i]) then t[i].size else 0
  {
    assert t[..i + 1] == t[..i] + [t[i]];
    FilteredAppend(version, t[..i], [t[i]]);
    assert Filtered(version, [t[i]]) == if Present(version, t[i]) then [t[i]] else [];
    TotalSizeAppend(Filtered(version, t[..i]), Filtered(version, [t[i]]));
  }

  // ----- the loops of the source -----

  method StructSize(version: nat, t: Table) returns (size: nat)
    ensures size == TotalSize(Filtered(version, t))
  {
    size := 0;
    for i := 0 to |t|
      invariant size == Start(version, t, i)
    {
      StartStep(version, t, i);
      if Present(version, t[i]) { size := size + t[i].size; }
    }
    assert t[..|t|] == t;
  }

  /** The offset of the field in the filtered table; nothing if it is unknown or absent. */
  method FieldOffset(version: nat, t: Table, name: string) returns (offset: Option<nat>)
    ensures var i := IndexOf(t, name);
            offset == if i < |t| && Present(version, t[i]) then Some(Start(version, t, i)) else None
  {
    var off := 0;
    var i := 0;
    while i < |t|
      invariant i <= |t| && off == Start(version, t, i)
      invariant forall j :: 0 <= j < i ==> t[j].name != name
    {
      var ok := Present(version, t[i]);
      if t[i].name == name {
        return if ok then Some(off) else None;
      }
      StartStep(version, t, i);
      if ok { off := off + t[i].size; }
      i := i + 1;
    }
    offset := None;
  }

  // ----- the windows tile the struct -----

  predicate InWindow(version: nat, t: Table, i: nat, b: nat)
    requires i < |t|
  {
    Present(version, t[i]) && Start(version, t, i) <= b < Start(version, t, i) + t[i].size
  }

  lemma {:induction false} StartsAscend(version: nat, t: Table, i: nat, j: nat)
    requires i < j <= |t|
    ensures Start(version, t, i) + (if Present(version, t[i]) then t[i].size else 0) <= Start(version, t, j)
    decreases j - i
  {
    StartStep(version, t, i);
    if i + 1 >= j {
    } else {
      StartsAscend(version, t, i + 1, j);
    }
  }

  lemma StartsAtZero(version: nat, t: Table)
    ensures Start(version, t, 0) == 0 && Start(version, t, |t|) == TotalSize(Filtered(version, t))
  {
    assert t[..|t|] == t;
  }

  lemma FindWindow(version: nat, t: Table, n: nat, b: nat) returns (i: nat)
    requires n <= |t| && b < Start(version, t, n)
    ensures i < n && InWindow(version, t, i, b)
    decreases n
  {
    StartsAtZero(version, t);
    if n == 0 {
    } else {
      StartStep(version, t, n - 1);
      if b < Start(version, t, n - 1) {
        i := FindWindow(version, t, n - 1, b);
      } else {
        i := n - 1;
      }
    }
  }

  /** Every byte of the struct belongs to exactly one present field, and no field sticks out. */
  lemma WindowsTile(version: nat, t: Table, b: nat)
    ensures b < TotalSize(Filtered(version, t)) <==> exists i :: 0 <= i < |t| && InWindow(version, t, i, b)
    ensures forall i, j :: 0 <= i < |t| && 0 <= j < |t| && InWindow(version, t, i, b) && InWindow(version, t, j, b) ==> i == j
  {
    assert t[..|t|] == t;
    if b < TotalSize(Filtered(version, t)) {
      var i := FindWindow(version, t, |t|, b);
      assert InWindow(version, t, i, b);
    }
    forall i | 0 <= i < |t| && InWindow(version, t, i, b) ensures b < TotalSize(Filtered(version, t)) {
      StartsAscend(version, t, i, |t|);
    }
    forall i, j | 0 <= i < j < |t| && InWindow(version, t, i, b) && InWindow(version, t, j, b) ensures false {
      StartsAscend(version, t, i, j);
    }
  }

  /** With distinct names, looking a field up finds its own window. */
  lemma LookupFindsOwnWindow(version: nat, t: Table, i: nat)
    requires DistinctNames(t) && i < |t|
    ensures IndexOf(t, t[i].name) == i
  {
  }
}
