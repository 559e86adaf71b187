/** What a deep copy is, on plain values: the value `rcopy`
    (deep/deepcopy.go) leaves in its destination, or how it fails. The
    heap-level copy in module `Deep` is proved to build exactly this. */
module DeepSpec {
  import opened Values

  /** Every error `rcopy` can return is `ErrUnsupported`; `Panics` marks a
      copy that reflection aborts (a nil pointer dereferenced). */
  datatype CopyOutcome = Copied(value: Value) | Unsupported | Panics

  predicate NilRef(v: Value)
  {
    v.Ref? && v.target.None?
  }

  /** `rcopy` of the value `v`, by kind (deep/deepcopy.go:39-79). A copy has
      the kind of its source, and a pointer's copy points to the same type. */
  function CopyOf(v: Value): (c: CopyOutcome)
    ensures v.Prim? || v.NilMap? ==> c == Copied(v)
    ensures v.Opaque? ==> c == Unsupported
    ensures NilRef(v) ==> c == Panics
    ensures c.Copied? ==> && c.value.Slice? == v.Slice? && c.value.Map? == v.Map?
                          && c.value.Struct? == v.Struct? && c.value.Ref? == v.Ref?
    ensures c.Copied? && v.Ref? ==> c.value.elem == v.elem
    decreases v, 1
  {
    match v
    case Prim(_) => Copied(v)
    case Opaque(_) => Unsupported
    case NilMap => Copied(NilMap)
    case Slice(es) => CopyElems(es)
    case Map(_) => CopyEntries(v)
    case Struct(fs) => CopyFields(fs)
    case Ref(_, None) => Panics
    case Ref(t, Some(q)) =>
      (match CopyOf(q)
       case Copied(w) => Copied(Ref(t, Some(w)))
       case other => other)
  }

  /** The copy of one slice element (deep/deepcopy.go:95-114): a nil pointer
      reaches `rcopy` with nothing to point at and is refused. */
  function ElemCopy(e: Value): CopyOutcome
    decreases e, 2
  {
    if NilRef(e) then Unsupported else CopyOf(e)
  }

  /** `copyArray` on a slice: elements in order, stopping at the first that
      cannot be copied. */
  function CopyElems(es: seq<Value>): (c: CopyOutcome)
    ensures c.Copied? <==> forall i | 0 <= i < |es| :: ElemCopy(es[i]).Copied?
    ensures c.Copied? ==> c.value.Slice? && |c.value.elems| == |es|
    ensures c.Copied? ==> forall i | 0 <= i < |es| :: c.value.elems[i] == ElemCopy(es[i]).value
    decreases es
  {
    if es == [] then Copied(Slice([]))
    else
      var init := es[..|es| - 1];
      match CopyElems(init)
      case Copied(w) =>
        (match ElemCopy(es[|es| - 1])
         case Copied(x) =>
           assert forall i | 0 <= i < |init| :: es[i] == init[i];
           Copied(Slice(w.elems + [x]))
         case other => other)
      case other =>
        assert exists i | 0 <= i < |init| :: !ElemCopy(init[i]).Copied?;
        other
  }

  /** The copy of one map entry (deep/deepcopy.go:133-150): a pointer gets a
      fresh target, every other value is stored as it is. */
  function EntryCopy(e: Value): CopyOutcome
    decreases e, 2
  {
    if e.Ref? then CopyOf(e) else Copied(e)
  }

  /** `copyMap` on a non-nil map. Entries holding a nil pointer are skipped.
      Go visits the keys in an unspecified order, so a map any of whose
      entries panics may panic; otherwise any refused entry refuses the map. */
  function CopyEntries(v: Value): (c: CopyOutcome)
    requires v.Map?
    ensures c.Copied? <==> forall k | k in v.entries && !NilRef(v.entries[k]) :: EntryCopy(v.entries[k]).Copied?
    ensures c.Copied? ==> c.value.Map?
    ensures c.Copied? ==> forall k :: k in c.value.entries <==> k in v.entries && !NilRef(v.entries[k])
    ensures c.Copied? ==> forall k | k in c.value.entries :: c.value.entries[k] == EntryCopy(v.entries[k]).value
    decreases v, 0
  {
    var m := v.entries;
    if exists k | k in m && !NilRef(m[k]) :: EntryCopy(m[k]).Panics? then Panics
    else if exists k | k in m && !NilRef(m[k]) :: EntryCopy(m[k]).Unsupported? then Unsupported
    else Copied(Map(map k | k in m && !NilRef(m[k]) :: EntryCopy(m[k]).value))
  }

  /** The copy of one struct field (deep/deepcopy.go:182-214): embedded and
      private fields, and nil pointers, keep the value the whole-struct
      assignment gave them. */
  function FieldCopy(f: Field): CopyOutcome
    decreases f, 2
  {
    if f.embedded || !Exported(f.name) || NilRef(f.val) then Copied(f.val)
    else CopyOf(f.val)
  }

  /** `copyStruct`: fields in declaration order, stopping at the first that
      cannot be copied. */
  function CopyFields(fs: seq<Field>): (c: CopyOutcome)
    ensures c.Copied? <==> forall i | 0 <= i < |fs| :: FieldCopy(fs[i]).Copied?
    ensures c.Copied? ==> c.value.Struct? && |c.value.fields| == |fs|
    ensures c.Copied? ==> forall i | 0 <= i < |fs| ::
              c.value.fields[i] == fs[i].(val := FieldCopy(fs[i]).value)
    decreases fs
  {
    if fs == [] then Copied(Struct([]))
    else
      var init := fs[..|fs| - 1];
      var last := fs[|fs| - 1];
      match CopyFields(init)
      case Copied(w) =>
        (match FieldCopy(last)
         case Copied(x) =>
           assert forall i | 0 <= i < |init| :: fs[i] == init[i];
           Copied(Struct(w.fields + [last.(val := x)]))
         case other => other)
      case other =>
        assert exists i | 0 <= i < |init| :: !FieldCopy(init[i]).Copied?;
        other
  }

  /** A value in which every map entry holds something other than a nil
      pointer: the values `copyMap` drops nothing from. */
  predicate NoNilEntries(v: Value)
  {
    match v
    case Slice(es) => forall i | 0 <= i < |es| :: NoNilEntries(es[i])
    case Map(m) => forall k | k in m :: !NilRef(m[k]) && NoNilEntries(m[k])
    case Struct(fs) => forall i | 0 <= i < |fs| :: NoNilEntries(fs[i].val)
    case Ref(_, Some(q)) => NoNilEntries(q)
    case _ => true
  }

  /** A successful copy is structurally equal to its source, as long as no
      map entry is a nil pointer (those entries are dropped). */
  lemma {:induction false} CopyIsFaithful(v: Value)
    requires CopyOf(v).Copied? && NoNilEntries(v)
    ensures CopyOf(v).value == v
  {
    match v
    case Slice(es) =>
      forall i | 0 <= i < |es|
        ensures ElemCopy(es[i]).value == es[i]
      {
        assert ElemCopy(es[i]).Copied?;
        CopyIsFaithful(es[i]);
      }
    case Map(m) =>
      forall k | k in m && m[k].Ref?
        ensures EntryCopy(m[k]).value == m[k]
      {
        assert !EntryCopy(m[k]).Panics? && !EntryCopy(m[k]).Unsupported?;
        CopyIsFaithful(m[k]);
      }
      assert CopyOf(v).value.entries == m;
    case Struct(fs) =>
      forall i | 0 <= i < |fs|
        ensures FieldCopy(fs[i]).value == fs[i].val
      {
        assert FieldCopy(fs[i]).Copied?;
        if !(fs[i].embedded || !Exported(fs[i].name) || NilRef(fs[i].val)) {
          CopyIsFaithful(fs[i].val);
        }
      }
      assert CopyOf(v).value.fields == fs;
    case Ref(t, Some(q)) =>
      CopyIsFaithful(q);
    case _ =>
  }

  /** A slice holding a nil pointer cannot be copied (the pointer reaches
      `rcopy`, which refuses the invalid value it points at). */
  lemma NilElementRefused(es: seq<Value>, i: nat)
    requires i < |es| && NilRef(es[i])
    ensures CopyOf(Slice(es)) == Unsupported || CopyOf(Slice(es)) == Panics
  {
    assert !ElemCopy(es[i]).Copied?;
  }

  /** A copy never panics unless the source holds a nil pointer somewhere the
      copy dereferences it. */
  predicate NilFree(v: Value)
  {
    match v
    case Slice(es) => forall i | 0 <= i < |es| :: NilFree(es[i])
    case Map(m) => forall k | k in m :: NilFree(m[k])
    case Struct(fs) => forall i | 0 <= i < |fs| :: NilFree(fs[i].val)
    case Ref(_, None) => false
    case Ref(_, Some(q)) => NilFree(q)
    case _ => true
  }

  lemma {:induction false} NilFreeNeverPanics(v: Value)
    requires NilFree(v)
    ensures !CopyOf(v).Panics?
  {
    match v
    case Slice(es) =>
      forall i | 0 <= i < |es|
        ensures !ElemCopy(es[i]).Panics?
      {
        NilFreeNeverPanics(es[i]);
      }
      CopyElemsNoPanic(es);
    case Map(m) =>
      forall k | k in m && !NilRef(m[k])
        ensures !EntryCopy(m[k]).Panics?
      {
        NilFreeNeverPanics(m[k]);
      }
    case Struct(fs) =>
      forall i | 0 <= i < |fs|
        ensures !FieldCopy(fs[i]).Panics?
      {
        NilFreeNeverPanics(fs[i].val);
      }
      CopyFieldsNoPanic(fs);
    case Ref(t, Some(q)) =>
      NilFreeNeverPanics(q);
    case _ =>
  }

  lemma {:induction false} CopyElemsNoPanic(es: seq<Value>)
    requires forall i | 0 <= i < |es| :: !ElemCopy(es[i]).Panics?
    ensures !CopyElems(es).Panics?
    decreases |es|
  {
    if es != [] {
      CopyElemsNoPanic(es[..|es| - 1]);
    }
  }

  lemma {:induction false} CopyFieldsNoPanic(fs: seq<Field>)
    requires forall i | 0 <= i < |fs| :: !FieldCopy(fs[i]).Panics?
    ensures !CopyFields(fs).Panics?
    decreases |fs|
  {
    if fs != [] {
      CopyFieldsNoPanic(fs[..|fs| - 1]);
    }
  }

  /** The first element that cannot be copied decides the outcome of the
      whole slice: `copyArray` returns its error and looks no further. */
  lemma {:induction false} CopyElemsFirstFailure(es: seq<Value>, i: nat)
    requires i < |es| && !ElemCopy(es[i]).Copied?
    requires forall j | 0 <= j < i :: ElemCopy(es[j]).Copied?
    ensures CopyElems(es) == ElemCopy(es[i])
    decreases |es|
  {
    if i < |es| - 1 {
      var init := es[..|es| - 1];
      assert init[i] == es[i];
      CopyElemsFirstFailure(init, i);
    }
  }

  /** Likewise for the fields of a struct in `copyStruct`. */
  lemma {:induction false} CopyFieldsFirstFailure(fs: seq<Field>, i: nat)
    requires i < |fs| && !FieldCopy(fs[i]).Copied?
    requires forall j | 0 <= j < i :: FieldCopy(fs[j]).Copied?
    ensures CopyFields(fs) == FieldCopy(fs[i])
    decreases |fs|
  {
    if i < |fs| - 1 {
      var init := fs[..|fs| - 1];
      assert init[i] == fs[i];
      CopyFieldsFirstFailure(init, i);
    }
  }

  /** No pointer in `v` points anywhere. */
  predicate PointerFree(v: Value)
  {
    match v
    case Slice(es) => forall i | 0 <= i < |es| :: PointerFree(es[i])
    case Map(m) => forall k | k in m :: PointerFree(m[k])
    case Struct(fs) => forall i | 0 <= i < |fs| :: PointerFree(fs[i].val)
    case Ref(_, target) => target.None?
    case _ => true
  }

  /** Every live pointer of `v` sits where the copy gives it a fresh target:
      not inside a map value that is not itself a pointer (stored as it is,
      deep/deepcopy.go:148-150), nor inside an embedded or private struct
      field (kept from the whole-struct assignment, deep/deepcopy.go:178-189).
      The copy of such a value shares no pointer target with it. */
  predicate Unshared(v: Value)
  {
    match v
    case Slice(es) => forall i | 0 <= i < |es| :: Unshared(es[i])
    case Map(m) => forall k | k in m :: if m[k].Ref? then Unshared(m[k]) else PointerFree(m[k])
    case Struct(fs) => forall i | 0 <= i < |fs| ::
      if fs[i].embedded || !Exported(fs[i].name) then PointerFree(fs[i].val) else Unshared(fs[i].val)
    case Ref(_, Some(q)) => Unshared(q)
    case _ => true
  }

  /** No entry of a map whose copy does not panic panics on its own. */
  lemma EntryNoPanic(v: Value, k: string)
    requires v.Map? && k in v.entries && !NilRef(v.entries[k]) && !CopyOf(v).Panics?
    ensures !EntryCopy(v.entries[k]).Panics?
  {
  }

  /** One refused entry refuses the map, unless another one panics. */
  lemma EntryRefused(v: Value, k: string)
    requires v.Map? && k in v.entries && !NilRef(v.entries[k]) && !CopyOf(v).Panics?
    requires !EntryCopy(v.entries[k]).Copied?
    ensures CopyOf(v) == Unsupported
  {
  }
}
