/** The deep copier of deep/deepcopy.go on heap values: `rcopy` and its
    helpers build the copy step by step, giving every pointer they follow a
    freshly allocated target, and are proved to build exactly the value
    `DeepSpec.CopyOf` describes. */
module Deep {
  import opened Values
  import opened Heap
  import opened DeepSpec
  import opened CopySteps

  /** The errors of deep/deepcopy.go:9-13 that can occur (`ErrDifferentKinds`
      cannot: both arguments are pointers by then). */
  datatype CopyError = ErrNonPointer | ErrUnsupported

  /** `Copy`: the value `x` points to, copied into the cell `y` points to.
      A nil source is a no-op; a nil destination, or one whose element type
      differs from the source's, would make Go panic, and the destination may
      not be one of the source's own cells. */
  method Copy(x: HValue, y: HValue, ghost r: set<Cell>) returns (err: Option<CopyError>, ghost ys: set<Cell>)
    requires Closed(x, r)
    requires x.HPtr? && x.target != null && y.HPtr? ==>
               y.target != null && y.elem == x.elem && y.target !in r && !CopyOf(Abs(x, r)).Panics?
    modifies if y.HPtr? && y.target != null then {y.target} else {}
    ensures fresh(ys)
    ensures !x.HPtr? ==> err == Some(ErrNonPointer)
    ensures x.HPtr? && x.target == null ==> err.None?
    ensures x.HPtr? && x.target != null && !y.HPtr? ==> err == Some(ErrNonPointer)
    ensures !(x.HPtr? && x.target != null && y.HPtr?) ==> y.HPtr? && y.target != null ==> unchanged(y.target)
    ensures x.HPtr? && x.target != null && y.HPtr? ==>
              && (err.None? <==> CopyOf(Abs(x, r)).Copied?)
              && (err.Some? ==> err.value == ErrUnsupported)
    ensures x.HPtr? && x.target != null && y.HPtr? && err.None? ==>
              if old(x.target.val).HNilMap? then unchanged(y.target)
              else && Closed(y.target.val, r + ys)
                   && Abs(y.target.val, r + ys) == old(CopyOf(Abs(x.target.val, r - {x.target}))).value
                   && (old(Unshared(Abs(x, r))) ==> Closed(y.target.val, ys))
  {
    ys := {};
    if !x.HPtr? {
      return Some(ErrNonPointer), ys;
    }
    if x.target == null {
      // nothing to copy
      return None, ys;
    }
    if !y.HPtr? {
      return Some(ErrNonPointer), ys;
    }
    var c := x.target;
    var w;
    w, err, ys := Rcopy(c.val, r - {c});
    if err.Some? || c.val.HNilMap? {
      // a nil source map is left alone: nothing is written
      return;
    }
    y.target.val := w;
    Grow(w, (r - {c}) + ys, r + ys);
  }

  /** `copyPrimitives`: a scalar is copied by assignment. */
  method CopyPrimitives(x: HValue) returns (y: HValue)
    requires x.HPrim?
    ensures y.HPrim? && CopyOf(Abs(x, {})) == Copied(Abs(y, {}))
  {
    y := x;
  }

  /** `rcopy`: the copy of the value `x`, by its kind. */
  method Rcopy(x: HValue, ghost r: set<Cell>) returns (y: HValue, err: Option<CopyError>, ghost ys: set<Cell>)
    requires Closed(x, r) && !CopyOf(Abs(x, r)).Panics?
    ensures fresh(ys)
    ensures err.None? <==> CopyOf(Abs(x, r)).Copied?
    ensures err.Some? ==> err.value == ErrUnsupported
    ensures err.None? ==> Copies(y, ys, x, r)
    decreases r, x, 3
  {
    match x
    case HPrim(_) =>
      y := CopyPrimitives(x);
      err, ys := None, {};
      Grow(x, {}, r);
    case HOpaque(_) =>
      y, err, ys := x, Some(ErrUnsupported), {};
    case HSlice(_) =>
      y, err, ys := CopyArray(x, r);
    case HNilMap =>
      y, err, ys := CopyMap(x, r);
    case HMap(_) =>
      y, err, ys := CopyMap(x, r);
    case HStruct(_) =>
      y, err, ys := CopyStruct(x, r);
    case HPtr(t, c) =>
      // `c` is not null: a nil pointer here would have panicked
      var w;
      ghost var cs;
      w, err, cs := Rcopy(c.val, r - {c});
      if err.Some? {
        return x, err, cs;
      }
      var cell := new Cell(w);
      y, ys := HPtr(t, cell), cs + {cell};
      PointerCopied(t, c, cell, w, cs, r);
  }

  /** `copyArray` on a slice: a new slice of the same length, filled element
      by element, stopping at the first element that cannot be copied. */
  method CopyArray(x: HValue, ghost r: set<Cell>) returns (y: HValue, err: Option<CopyError>, ghost ys: set<Cell>)
    requires x.HSlice? && Closed(x, r) && !CopyOf(Abs(x, r)).Panics?
    ensures fresh(ys)
    ensures err.None? <==> CopyOf(Abs(x, r)).Copied?
    ensures err.Some? ==> err.value == ErrUnsupported
    ensures err.None? ==> Copies(y, ys, x, r)
    decreases r, x, 2
  {
    var out: seq<HValue> := [];
    ys := {};
    for i := 0 to |x.elems|
      invariant fresh(ys)
      invariant |out| == i
      invariant ElemsCopied(out, ys, Abs(x, r).elems, r)
    {
      ghost var cs;
      out, err, cs := CopyElemAt(x, r, out, ys);
      if err.Some? {
        return x, err, ys + cs;
      }
      ys := ys + cs;
    }
    y, err := HSlice(out), None;
    ElemsDone(x, r, out, ys);
  }

  /** One turn of the loop of `copyArray`: the copy of the next element
      appended to `out`. */
  method CopyElemAt(x: HValue, ghost r: set<Cell>, out: seq<HValue>, ghost ys: set<Cell>)
    returns (out': seq<HValue>, err: Option<CopyError>, ghost cs: set<Cell>)
    requires x.HSlice? && Closed(x, r) && !CopyOf(Abs(x, r)).Panics? && |out| < |x.elems|
    requires ElemsCopied(out, ys, Abs(x, r).elems, r)
    ensures fresh(cs)
    ensures err.Some? ==> err.value == ErrUnsupported && CopyOf(Abs(x, r)) == Unsupported
    ensures err.None? ==> |out'| == |out| + 1 && ElemsCopied(out', ys + cs, Abs(x, r).elems, r)
    decreases r, x, 1
  {
    ghost var src := Abs(x, r).elems;
    var vx := x.elems[|out|];
    if vx.HPtr? && vx.target == null {
      // the element points nowhere: `rcopy` meets an invalid value
      NilElement(x, r, out, ys);
      return out, Some(ErrUnsupported), {};
    }
    ElemToCopy(x, r, out, ys);
    ElemAt(x, r, |out|);
    var vy, e, cs' := Rcopy(vx, r);
    if e.Some? {
      return out, e, cs';
    }
    ExtendElems(out, ys, src, r, vx, vy, cs');
    return out + [vy], None, cs';
  }

  /** `reflect.Value.MapKeys`: the keys of `m`, each once, in an order the
      model leaves open. */
  method MapKeys(m: map<string, HValue>) returns (keys: seq<string>)
    ensures forall k :: k in keys <==> k in m
    ensures forall i, j | 0 <= i < j < |keys| :: keys[i] != keys[j]
  {
    keys := [];
    var rest := m.Keys;
    while rest != {}
      invariant forall k :: k in keys <==> k in m && k !in rest
      invariant rest <= m.Keys
      invariant forall i, j | 0 <= i < j < |keys| :: keys[i] != keys[j]
      decreases |rest|
    {
      var k :| k in rest;
      keys, rest := keys + [k], rest - {k};
    }
  }

  /** `copyMap`: a nil map stays nil; otherwise a new map with the same keys,
      a pointer entry getting a new target, a nil pointer entry dropped, any
      other entry stored as it is. */
  method CopyMap(x: HValue, ghost r: set<Cell>) returns (y: HValue, err: Option<CopyError>, ghost ys: set<Cell>)
    requires (x.HMap? || x.HNilMap?) && Closed(x, r) && !CopyOf(Abs(x, r)).Panics?
    ensures fresh(ys)
    ensures err.None? <==> CopyOf(Abs(x, r)).Copied?
    ensures err.Some? ==> err.value == ErrUnsupported
    ensures err.None? ==> Copies(y, ys, x, r)
    decreases r, x, 2
  {
    ys := {};
    err := None;
    if x.HNilMap? {
      assert r + ys == r;
      return HNilMap, None, ys;
    }
    var keys := MapKeys(x.entries);
    var out: map<string, HValue> := map[];
    for i := 0 to |keys|
      invariant fresh(ys)
      invariant EntriesCopied(out, ys, Abs(x, r).entries, keys[..i], r)
    {
      ghost var cs;
      out, err, cs := CopyEntry(x, r, keys[i], out, ys, keys[..i]);
      if err.Some? {
        return x, err, ys + cs;
      }
      NextKey(keys, i);
      ys := ys + cs;
    }
    y, err := HMap(out), None;
    LastKey(keys);
    EntriesDone(x, r, out, ys, keys);
  }

  /** One turn of the loop of `copyMap`: the entry at `k` stored in `out`. */
  method CopyEntry(x: HValue, ghost r: set<Cell>, k: string, out: map<string, HValue>,
                   ghost ys: set<Cell>, ghost done: seq<string>)
    returns (out': map<string, HValue>, err: Option<CopyError>, ghost cs: set<Cell>)
    requires x.HMap? && Closed(x, r) && !CopyOf(Abs(x, r)).Panics?
    requires k in x.entries
    requires EntriesCopied(out, ys, Abs(x, r).entries, done, r)
    ensures fresh(cs)
    ensures err.Some? ==> err.value == ErrUnsupported && CopyOf(Abs(x, r)) == Unsupported
    ensures err.None? ==> EntriesCopied(out', ys + cs, Abs(x, r).entries, done + [k], r)
    decreases r, x, 1
  {
    ghost var v := Abs(x, r);
    ghost var src := v.entries;
    var vx := x.entries[k];
    assert src[k] == Abs(vx, r);
    if vx.HPtr? && vx.target == null {
      SkipEntry(out, ys, src, done, r, k);
      assert ys + {} == ys;
      return out, None, {};
    } else if vx.HPtr? {
      EntryNoPanic(v, k);
      var vy, e, cs' := Rcopy(vx, r);
      if e.Some? {
        EntryRefused(v, k);
        return out, e, cs';
      }
      ExtendEntries(out, ys, src, done, r, k, vx, vy, cs');
      return out[k := vy], None, cs';
    } else {
      // not addressable: the value itself is stored
      ExtendEntries(out, ys, src, done, r, k, vx, vx, {});
      assert ys + {} == ys;
      return out[k := vx], None, {};
    }
  }

  /** `copyStruct`: the whole struct is assigned first, then every exported,
      non-embedded field is copied again in declaration order; a nil pointer
      field stays nil. */
  method CopyStruct(x: HValue, ghost r: set<Cell>) returns (y: HValue, err: Option<CopyError>, ghost ys: set<Cell>)
    requires x.HStruct? && Closed(x, r) && !CopyOf(Abs(x, r)).Panics?
    ensures fresh(ys)
    ensures err.None? <==> CopyOf(Abs(x, r)).Copied?
    ensures err.Some? ==> err.value == ErrUnsupported
    ensures err.None? ==> Copies(y, ys, x, r)
    decreases r, x, 2
  {
    ghost var src := Abs(x, r).fields;
    var out := x.fields;
    ys := {};
    FieldsStart(x, r);
    for i := 0 to |x.fields|
      invariant fresh(ys)
      invariant src == Abs(x, r).fields
      invariant FieldsCopied(out, ys, x.fields, src, i, r)
    {
      var f := x.fields[i];
      if f.embedded || !Exported(f.name) || (f.val.HPtr? && f.val.target == null) {
        // left as the whole-struct assignment made it
        KeepFieldOf(x, r, out, ys, i);
        continue;
      }
      ghost var cs;
      out, err, cs := CopyFieldAt(x, r, i, out, ys, src);
      if err.Some? {
        return x, err, ys + cs;
      }
      ys := ys + cs;
    }
    y, err := HStruct(out), None;
    FieldsDone(x, r, out, ys);
  }

  /** The loop of `copyStruct` on an exported, non-embedded field `i` that is
      not a nil pointer: its copy is written into `out`. `src` is what the
      fields of `x` denote. */
  method CopyFieldAt(x: HValue, ghost r: set<Cell>, i: nat, out: seq<HField>, ghost ys: set<Cell>,
                     ghost src: seq<Field>)
    returns (out': seq<HField>, err: Option<CopyError>, ghost cs: set<Cell>)
    requires x.HStruct? && Closed(x, r) && src == Abs(x, r).fields && !CopyFields(src).Panics?
    requires i < |x.fields|
    requires FieldsCopied(out, ys, x.fields, src, i, r)
    requires var f := x.fields[i]; !(f.embedded || !Exported(f.name) || (f.val.HPtr? && f.val.target == null))
    ensures fresh(cs)
    ensures err.Some? ==> err.value == ErrUnsupported && CopyFields(src) == Unsupported
    ensures err.None? ==> FieldsCopied(out', ys + cs, x.fields, src, i + 1, r)
    decreases r, x, 1
  {
    var f := x.fields[i];
    FieldToCopy(x, r, out, ys, i);
    FieldAt(x, r, i);
    var vy, e, cs' := Rcopy(f.val, r);
    if e.Some? {
      return out, e, cs';
    }
    CopyField(out, ys, x.fields, src, i, r, vy, cs');
    return out[i := f.(val := vy)], None, cs';
  }
}
