/** Values as the deep copier sees them in memory: pointers are references to
    heap cells, so copying a pointer can mean sharing its target or giving it
    a new one. `Abs` reads such a value back as a plain `Value`. */
module Heap {
  import opened Values

  /** A value whose pointers are cells of the heap (`null` is nil). */
  datatype HValue =
    | HPrim(s: Scalar)
    | HSlice(elems: seq<HValue>)
    | HNilMap
    | HMap(entries: map<string, HValue>)
    | HStruct(fields: seq<HField>)
    | HPtr(elem: TypeId, target: Cell?)
    | HOpaque(kind: OpaqueKind)

  datatype HField = HField(name: string, tag: string, embedded: bool, val: HValue)

  /** The target of a pointer: one variable of the heap. */
  class Cell {
    var val: HValue

    constructor (v: HValue)
      ensures val == v
    {
      val := v;
    }
  }

  /** Every cell reachable from `v` lies in `r`, and no chain of pointers
      comes back to a cell it has already gone through. */
  ghost predicate Closed(v: HValue, r: set<Cell>)
    reads r
    decreases r, v
  {
    match v
    case HSlice(es) => forall i | 0 <= i < |es| :: Closed(es[i], r)
    case HMap(m) => forall k | k in m :: Closed(m[k], r)
    case HStruct(fs) => forall i | 0 <= i < |fs| :: Closed(fs[i].val, r)
    case HPtr(_, c) => c == null || (c in r && Closed(c.val, r - {c}))
    case _ => true
  }

  /** The plain value `v` denotes in the current heap. */
  ghost function Abs(v: HValue, r: set<Cell>): (a: Value)
    requires Closed(v, r)
    reads r
    ensures v.HSlice? ==> a.Slice? && |a.elems| == |v.elems|
    ensures v.HStruct? ==> a.Struct? && |a.fields| == |v.fields|
    ensures v.HMap? ==> a.Map? && a.entries.Keys == v.entries.Keys
    ensures v.HPtr? ==> a.Ref? && a.elem == v.elem && (a.target.None? <==> v.target == null)
    decreases r, v
  {
    match v
    case HPrim(s) => Prim(s)
    case HSlice(es) => Slice(AbsElems(es, r))
    case HNilMap => NilMap
    case HMap(m) => Map(map k | k in m :: Abs(m[k], r))
    case HStruct(fs) => Struct(AbsFields(fs, r))
    case HPtr(t, c) => Ref(t, if c == null then None else Some(Abs(c.val, r - {c})))
    case HOpaque(k) => Opaque(k)
  }

  ghost function AbsElems(es: seq<HValue>, r: set<Cell>): (ws: seq<Value>)
    requires forall i | 0 <= i < |es| :: Closed(es[i], r)
    reads r
    ensures |ws| == |es| && forall i | 0 <= i < |es| :: ws[i] == Abs(es[i], r)
    decreases r, es
  {
    if es == [] then [] else [Abs(es[0], r)] + AbsElems(es[1..], r)
  }

  ghost function AbsFields(fs: seq<HField>, r: set<Cell>): (gs: seq<Field>)
    requires forall i | 0 <= i < |fs| :: Closed(fs[i].val, r)
    reads r
    ensures |gs| == |fs|
    ensures forall i | 0 <= i < |fs| ::
              gs[i] == Field(fs[i].name, fs[i].tag, fs[i].embedded, Abs(fs[i].val, r))
    decreases r, fs
  {
    if fs == [] then []
    else [Field(fs[0].name, fs[0].tag, fs[0].embedded, Abs(fs[0].val, r))] + AbsFields(fs[1..], r)
  }

  /** Widening the set of cells changes neither closure nor meaning. */
  lemma {:induction false} Grow(v: HValue, r: set<Cell>, s: set<Cell>)
    requires Closed(v, r) && r <= s
    ensures Closed(v, s) && Abs(v, s) == Abs(v, r)
    decreases r, v
  {
    match v
    case HSlice(es) =>
      forall i | 0 <= i < |es|
        ensures Closed(es[i], s) && Abs(es[i], s) == Abs(es[i], r)
      {
        Grow(es[i], r, s);
      }
      assert Abs(v, s).elems == Abs(v, r).elems;
    case HMap(m) =>
      forall k | k in m
        ensures Closed(m[k], s) && Abs(m[k], s) == Abs(m[k], r)
      {
        Grow(m[k], r, s);
      }
      assert Abs(v, s).entries == Abs(v, r).entries;
    case HStruct(fs) =>
      forall i | 0 <= i < |fs|
        ensures Closed(fs[i].val, s) && Abs(fs[i].val, s) == Abs(fs[i].val, r)
      {
        Grow(fs[i].val, r, s);
      }
      assert Abs(v, s).fields == Abs(v, r).fields;
    case HPtr(_, c) =>
      if c != null {
        Grow(c.val, r - {c}, s - {c});
      }
    case _ =>
  }
}
