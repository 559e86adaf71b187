/** The states the loops of `copyArray`, `copyMap` and `copyStruct` go
    through, and how one step of each loop moves from one to the next. */
module CopySteps {
  import opened Values
  import opened Heap
  import opened DeepSpec

  /** `y`, built in the cells `r` of the source and the new cells `ys`, is the
      copy of `x` that `CopyOf` describes; when `x` holds no shared pointer,
      `y` reaches the new cells only. */
  ghost predicate Copies(y: HValue, ys: set<Cell>, x: HValue, r: set<Cell>)
    requires Closed(x, r)
    reads r, ys
  {
    && CopyOf(Abs(x, r)).Copied?
    && Closed(y, r + ys)
    && Abs(y, r + ys) == CopyOf(Abs(x, r)).value
    && (Unshared(Abs(x, r)) ==> Closed(y, ys))
  }

  /** A value without live pointers is closed in any set of cells. */
  lemma {:induction false} PointerFreeClosed(v: HValue, r: set<Cell>, s: set<Cell>)
    requires Closed(v, r) && PointerFree(Abs(v, r))
    ensures Closed(v, s)
    decreases v
  {
    match v
    case HSlice(es) =>
      forall i | 0 <= i < |es|
        ensures Closed(es[i], s)
      {
        assert Abs(v, r).elems[i] == Abs(es[i], r);
        PointerFreeClosed(es[i], r, s);
      }
    case HMap(m) =>
      forall k | k in m
        ensures Closed(m[k], s)
      {
        assert Abs(v, r).entries[k] == Abs(m[k], r);
        PointerFreeClosed(m[k], r, s);
      }
    case HStruct(fs) =>
      forall i | 0 <= i < |fs|
        ensures Closed(fs[i].val, s)
      {
        assert Abs(v, r).fields[i].val == Abs(fs[i].val, r);
        PointerFreeClosed(fs[i].val, r, s);
      }
    case _ =>
  }

  /** A copy made in the cells `cs` is still the same copy seen in more
      cells. */
  lemma WidenCopy(y: HValue, cs: set<Cell>, ys: set<Cell>, x: HValue, r: set<Cell>)
    requires Closed(x, r) && Copies(y, cs, x, r) && cs <= ys
    ensures Closed(y, r + ys) && Abs(y, r + ys) == CopyOf(Abs(x, r)).value
    ensures Unshared(Abs(x, r)) ==> Closed(y, ys)
  {
    Grow(y, r + cs, r + ys);
    if Unshared(Abs(x, r)) {
      Grow(y, cs, ys);
    }
  }

  /** The target of a pointer, copied into the fresh cell `cell`. */
  lemma PointerCopied(t: TypeId, c: Cell, cell: Cell, w: HValue, cs: set<Cell>, r: set<Cell>)
    requires Closed(HPtr(t, c), r) && cell !in r && cell !in cs
    requires Copies(w, cs, c.val, r - {c}) && cell.val == w
    ensures Copies(HPtr(t, cell), cs + {cell}, HPtr(t, c), r)
  {
    var ys := cs + {cell};
    Grow(w, (r - {c}) + cs, (r + ys) - {cell});
    if Unshared(Abs(HPtr(t, c), r)) {
      Grow(w, cs, ys - {cell});
    }
  }

  /** `o`, seen in the cells `r` and `ys`, is the copy outcome `c`; when `u`
      (the whole source holds no shared pointer), `o` reaches `ys` only. */
  ghost predicate CopiedAt(o: HValue, c: CopyOutcome, ys: set<Cell>, r: set<Cell>, u: bool)
    reads r, ys
  {
    && c.Copied?
    && Closed(o, r + ys) && Abs(o, r + ys) == c.value
    && (u ==> Closed(o, ys))
  }

  lemma WidenAt(o: HValue, c: CopyOutcome, ys: set<Cell>, cs: set<Cell>, r: set<Cell>, u: bool)
    requires CopiedAt(o, c, ys, r, u)
    ensures CopiedAt(o, c, ys + cs, r, u)
  {
    Grow(o, r + ys, r + (ys + cs));
    if u {
      Grow(o, ys, ys + cs);
    }
  }

  /** A fresh copy of the next piece of the source. */
  lemma StartAt(vy: HValue, cs: set<Cell>, ys: set<Cell>, vx: HValue, r: set<Cell>, u: bool)
    requires Closed(vx, r) && Copies(vy, cs, vx, r)
    requires u ==> Unshared(Abs(vx, r))
    ensures CopiedAt(vy, CopyOf(Abs(vx, r)), ys + cs, r, u)
  {
    WidenCopy(vy, cs, ys + cs, vx, r);
  }

  // ----- copyArray -----

  /** The first `|out|` elements of the slice `src` are copied into `out`. */
  ghost predicate ElemsCopied(out: seq<HValue>, ys: set<Cell>, src: seq<Value>, r: set<Cell>)
    reads r, ys
  {
    && |out| <= |src|
    && forall j | 0 <= j < |out| :: CopiedAt(out[j], ElemCopy(src[j]), ys, r, Unshared(Slice(src)))
  }

  /** The elements copied so far, seen with more new cells. */
  lemma WidenElems(out: seq<HValue>, ys: set<Cell>, cs: set<Cell>, src: seq<Value>, r: set<Cell>)
    requires ElemsCopied(out, ys, src, r)
    ensures ElemsCopied(out, ys + cs, src, r)
  {
    forall j | 0 <= j < |out|
      ensures CopiedAt(out[j], ElemCopy(src[j]), ys + cs, r, Unshared(Slice(src)))
    {
      WidenAt(out[j], ElemCopy(src[j]), ys, cs, r, Unshared(Slice(src)));
    }
  }

  /** One more element copied. */
  lemma AppendElem(out: seq<HValue>, ys: set<Cell>, src: seq<Value>, r: set<Cell>, vy: HValue)
    requires ElemsCopied(out, ys, src, r) && |out| < |src|
    requires CopiedAt(vy, ElemCopy(src[|out|]), ys, r, Unshared(Slice(src)))
    ensures ElemsCopied(out + [vy], ys, src, r)
  {
    var out' := out + [vy];
    forall j | 0 <= j < |out'|
      ensures CopiedAt(out'[j], ElemCopy(src[j]), ys, r, Unshared(Slice(src)))
    {
      if j < |out| {
        assert out'[j] == out[j];
      }
    }
  }

  /** Appending the copy of the next element. */
  lemma ExtendElems(out: seq<HValue>, ys: set<Cell>, src: seq<Value>, r: set<Cell>,
                    vx: HValue, vy: HValue, cs: set<Cell>)
    requires ElemsCopied(out, ys, src, r) && |out| < |src|
    requires Closed(vx, r) && Abs(vx, r) == src[|out|] && !NilRef(src[|out|])
    requires Copies(vy, cs, vx, r)
    ensures ElemsCopied(out + [vy], ys + cs, src, r)
  {
    var u := Unshared(Slice(src));
    WidenElems(out, ys, cs, src, r);
    assert u ==> Unshared(src[|out|]);
    StartAt(vy, cs, ys, vx, r, u);
    AppendElem(out, ys + cs, src, r, vy);
  }

  /** Element `i` of the slice `x`, in the terms of `Abs`. */
  lemma ElemAt(x: HValue, r: set<Cell>, i: nat)
    requires x.HSlice? && Closed(x, r) && i < |x.elems|
    ensures Closed(x.elems[i], r) && Abs(x, r).elems[i] == Abs(x.elems[i], r)
  {
  }

  /** A nil pointer as the next element of the slice `x` refuses the slice. */
  lemma NilElement(x: HValue, r: set<Cell>, out: seq<HValue>, ys: set<Cell>)
    requires x.HSlice? && Closed(x, r) && |out| < |x.elems|
    requires ElemsCopied(out, ys, Abs(x, r).elems, r)
    requires x.elems[|out|].HPtr? && x.elems[|out|].target == null
    ensures CopyOf(Abs(x, r)) == Unsupported
  {
    ElemAt(x, r, |out|);
    CopyElemsFirstFailure(Abs(x, r).elems, |out|);
  }

  /** The next element of the slice `x` is to be copied: its copy does not
      panic, and when it is refused the slice is refused. */
  lemma ElemToCopy(x: HValue, r: set<Cell>, out: seq<HValue>, ys: set<Cell>)
    requires x.HSlice? && Closed(x, r) && !CopyOf(Abs(x, r)).Panics? && |out| < |x.elems|
    requires ElemsCopied(out, ys, Abs(x, r).elems, r)
    requires !(x.elems[|out|].HPtr? && x.elems[|out|].target == null)
    ensures Closed(x.elems[|out|], r) && !CopyOf(Abs(x.elems[|out|], r)).Panics?
    ensures !CopyOf(Abs(x.elems[|out|], r)).Copied? ==> CopyOf(Abs(x, r)) == Unsupported
  {
    var src := Abs(x, r).elems;
    ElemAt(x, r, |out|);
    if !ElemCopy(src[|out|]).Copied? {
      CopyElemsFirstFailure(src, |out|);
    }
  }

  lemma ElemsDone(x: HValue, r: set<Cell>, out: seq<HValue>, ys: set<Cell>)
    requires x.HSlice? && Closed(x, r)
    requires ElemsCopied(out, ys, Abs(x, r).elems, r) && |out| == |x.elems|
    ensures Closed(HSlice(out), r + ys)
    ensures Copies(HSlice(out), ys, x, r)
  {
    var src := Abs(x, r).elems;
    var c := CopyElems(src);
    assert c.Copied?;
    assert Abs(HSlice(out), r + ys).elems == c.value.elems;
    if Unshared(Abs(x, r)) {
      assert Closed(HSlice(out), ys);
    }
  }

  // ----- copyMap -----

  /** The keys `done` of the map `src` are visited: the nil pointer entries
      among them skipped, the others copied into `out`. */
  ghost predicate EntriesCopied(out: map<string, HValue>, ys: set<Cell>, src: map<string, Value>,
                                done: seq<string>, r: set<Cell>)
    reads r, ys
  {
    && (forall i | 0 <= i < |done| :: done[i] in src)
    && (forall k :: k in out <==> k in done && k in src && !NilRef(src[k]))
    && forall k | k in out :: CopiedAt(out[k], EntryCopy(src[k]), ys, r, Unshared(Map(src)))
  }

  /** The key list visited one key further. */
  lemma NextKey(keys: seq<string>, i: nat)
    requires i < |keys|
    ensures keys[..i + 1] == keys[..i] + [keys[i]]
  {
  }

  /** The key list visited to its end. */
  lemma LastKey(keys: seq<string>)
    ensures keys[..|keys|] == keys
  {
  }

  lemma SkipEntry(out: map<string, HValue>, ys: set<Cell>, src: map<string, Value>,
                  done: seq<string>, r: set<Cell>, k: string)
    requires EntriesCopied(out, ys, src, done, r) && k in src && NilRef(src[k])
    ensures EntriesCopied(out, ys, src, done + [k], r)
  {
  }

  /** The entries copied so far, seen with more new cells. */
  lemma WidenEntries(out: map<string, HValue>, ys: set<Cell>, cs: set<Cell>, src: map<string, Value>,
                     done: seq<string>, r: set<Cell>)
    requires EntriesCopied(out, ys, src, done, r)
    ensures EntriesCopied(out, ys + cs, src, done, r)
  {
    forall j | j in out
      ensures CopiedAt(out[j], EntryCopy(src[j]), ys + cs, r, Unshared(Map(src)))
    {
      WidenAt(out[j], EntryCopy(src[j]), ys, cs, r, Unshared(Map(src)));
    }
  }

  /** One more entry copied. */
  lemma AppendEntry(out: map<string, HValue>, ys: set<Cell>, src: map<string, Value>,
                    done: seq<string>, r: set<Cell>, k: string, vy: HValue)
    requires EntriesCopied(out, ys, src, done, r) && k in src && !NilRef(src[k])
    requires CopiedAt(vy, EntryCopy(src[k]), ys, r, Unshared(Map(src)))
    ensures EntriesCopied(out[k := vy], ys, src, done + [k], r)
  {
    var done' := done + [k];
    forall i | 0 <= i < |done'|
      ensures done'[i] in src
    {
      if i < |done| {
        assert done'[i] == done[i];
      }
    }
  }

  /** Storing the copy of the entry at `k`: a pointer with a new target, or
      any other value as it is. */
  lemma ExtendEntries(out: map<string, HValue>, ys: set<Cell>, src: map<string, Value>,
                      done: seq<string>, r: set<Cell>, k: string, vx: HValue, vy: HValue, cs: set<Cell>)
    requires EntriesCopied(out, ys, src, done, r) && k in src
    requires Closed(vx, r) && Abs(vx, r) == src[k] && !NilRef(src[k])
    requires if vx.HPtr? then Copies(vy, cs, vx, r) else vy == vx && cs == {}
    ensures EntriesCopied(out[k := vy], ys + cs, src, done + [k], r)
  {
    var u := Unshared(Map(src));
    WidenEntries(out, ys, cs, src, done, r);
    if vx.HPtr? {
      assert u ==> Unshared(src[k]);
      StartAt(vy, cs, ys, vx, r, u);
    } else {
      Grow(vx, r, r + (ys + cs));
      if u {
        assert PointerFree(src[k]);
        PointerFreeClosed(vx, r, ys + cs);
      }
    }
    AppendEntry(out, ys + cs, src, done, r, k, vy);
  }

  lemma EntriesDone(x: HValue, r: set<Cell>, out: map<string, HValue>, ys: set<Cell>, done: seq<string>)
    requires x.HMap? && Closed(x, r)
    requires forall k | k in x.entries :: k in done
    requires EntriesCopied(out, ys, Abs(x, r).entries, done, r)
    ensures Closed(HMap(out), r + ys)
    ensures Copies(HMap(out), ys, x, r)
  {
    var v := Abs(x, r);
    var src := v.entries;
    forall k | k in src && !NilRef(src[k])
      ensures EntryCopy(src[k]).Copied?
    {
      assert k in out;
    }
    var c := CopyEntries(v);
    assert Abs(HMap(out), r + ys).entries == c.value.entries;
    if Unshared(v) {
      assert Closed(HMap(out), ys);
    }
  }

  // ----- copyStruct -----

  /** `out` is the struct `fs` after the whole-struct assignment, its first
      `i` fields visited. */
  ghost predicate FieldsCopied(out: seq<HField>, ys: set<Cell>, fs: seq<HField>, src: seq<Field>,
                               i: nat, r: set<Cell>)
    reads r, ys
  {
    && |out| == |fs| == |src| && i <= |fs|
    && (forall j | 0 <= j < |fs| :: out[j] == fs[j].(val := out[j].val))
    && (forall j | i <= j < |fs| :: out[j] == fs[j] && Closed(fs[j].val, r))
    && forall j | 0 <= j < i :: CopiedAt(out[j].val, FieldCopy(src[j]), ys, r, Unshared(Struct(src)))
  }

  lemma FieldsStart(x: HValue, r: set<Cell>)
    requires x.HStruct? && Closed(x, r)
    ensures FieldsCopied(x.fields, {}, x.fields, Abs(x, r).fields, 0, r)
  {
  }

  /** Leaving field `i` as the whole-struct assignment made it: an embedded
      or private field, or a nil pointer. */
  lemma KeepField(out: seq<HField>, ys: set<Cell>, fs: seq<HField>, src: seq<Field>, i: nat, r: set<Cell>)
    requires FieldsCopied(out, ys, fs, src, i, r) && i < |fs|
    requires src[i] == Field(fs[i].name, fs[i].tag, fs[i].embedded, Abs(fs[i].val, r))
    requires fs[i].embedded || !Exported(fs[i].name) || (fs[i].val.HPtr? && fs[i].val.target == null)
    ensures FieldsCopied(out, ys, fs, src, i + 1, r)
  {
    var u := Unshared(Struct(src));
    Grow(fs[i].val, r, r + ys);
    if u && !fs[i].val.HPtr? {
      assert PointerFree(src[i].val);
      PointerFreeClosed(fs[i].val, r, ys);
    }
    assert CopiedAt(out[i].val, FieldCopy(src[i]), ys, r, u);
  }

  /** The fields copied so far, seen with more new cells. */
  lemma WidenFields(out: seq<HField>, ys: set<Cell>, cs: set<Cell>, fs: seq<HField>, src: seq<Field>,
                    i: nat, r: set<Cell>)
    requires FieldsCopied(out, ys, fs, src, i, r)
    ensures FieldsCopied(out, ys + cs, fs, src, i, r)
  {
    forall j | 0 <= j < i
      ensures CopiedAt(out[j].val, FieldCopy(src[j]), ys + cs, r, Unshared(Struct(src)))
    {
      WidenAt(out[j].val, FieldCopy(src[j]), ys, cs, r, Unshared(Struct(src)));
    }
  }

  /** Writing the copy of field `i`. */
  lemma CopyField(out: seq<HField>, ys: set<Cell>, fs: seq<HField>, src: seq<Field>, i: nat, r: set<Cell>,
                  vy: HValue, cs: set<Cell>)
    requires FieldsCopied(out, ys, fs, src, i, r) && i < |fs|
    requires src[i] == Field(fs[i].name, fs[i].tag, fs[i].embedded, Abs(fs[i].val, r))
    requires !(fs[i].embedded || !Exported(fs[i].name) || (fs[i].val.HPtr? && fs[i].val.target == null))
    requires Copies(vy, cs, fs[i].val, r)
    ensures FieldsCopied(out[i := fs[i].(val := vy)], ys + cs, fs, src, i + 1, r)
  {
    var u := Unshared(Struct(src));
    WidenFields(out, ys, cs, fs, src, i, r);
    assert u ==> Unshared(src[i].val);
    StartAt(vy, cs, ys, fs[i].val, r, u);
    var out' := out[i := fs[i].(val := vy)];
    forall j | 0 <= j < i
      ensures CopiedAt(out'[j].val, FieldCopy(src[j]), ys + cs, r, u)
    {
      assert out'[j] == out[j];
    }
  }

  /** The fields visited so far could all be copied. */
  lemma FieldsSoFar(out: seq<HField>, ys: set<Cell>, fs: seq<HField>, src: seq<Field>, i: nat, r: set<Cell>)
    requires FieldsCopied(out, ys, fs, src, i, r)
    ensures forall j | 0 <= j < i :: FieldCopy(src[j]).Copied?
  {
    forall j | 0 <= j < i
      ensures FieldCopy(src[j]).Copied?
    {
      assert CopiedAt(out[j].val, FieldCopy(src[j]), ys, r, Unshared(Struct(src)));
    }
  }

  /** Field `i` of the struct `x`, in the terms of `Abs`. */
  lemma FieldAt(x: HValue, r: set<Cell>, i: nat)
    requires x.HStruct? && Closed(x, r) && i < |x.fields|
    ensures Closed(x.fields[i].val, r)
    ensures Abs(x, r).fields[i]
            == Field(x.fields[i].name, x.fields[i].tag, x.fields[i].embedded, Abs(x.fields[i].val, r))
  {
  }

  /** Field `i` is left as it is in the struct `x`. */
  lemma KeepFieldOf(x: HValue, r: set<Cell>, out: seq<HField>, ys: set<Cell>, i: nat)
    requires x.HStruct? && Closed(x, r) && i < |x.fields|
    requires FieldsCopied(out, ys, x.fields, Abs(x, r).fields, i, r)
    requires x.fields[i].embedded || !Exported(x.fields[i].name)
             || (x.fields[i].val.HPtr? && x.fields[i].val.target == null)
    ensures FieldsCopied(out, ys, x.fields, Abs(x, r).fields, i + 1, r)
  {
    FieldAt(x, r, i);
    KeepField(out, ys, x.fields, Abs(x, r).fields, i, r);
  }

  /** Field `i` of the struct `x` is to be copied: its copy does not panic,
      and when it is refused the struct is refused. */
  lemma FieldToCopy(x: HValue, r: set<Cell>, out: seq<HField>, ys: set<Cell>, i: nat)
    requires x.HStruct? && Closed(x, r) && !CopyFields(Abs(x, r).fields).Panics? && i < |x.fields|
    requires FieldsCopied(out, ys, x.fields, Abs(x, r).fields, i, r)
    requires !(x.fields[i].embedded || !Exported(x.fields[i].name)
               || (x.fields[i].val.HPtr? && x.fields[i].val.target == null))
    ensures Closed(x.fields[i].val, r) && !CopyOf(Abs(x.fields[i].val, r)).Panics?
    ensures !CopyOf(Abs(x.fields[i].val, r)).Copied? ==> CopyFields(Abs(x, r).fields) == Unsupported
  {
    var src := Abs(x, r).fields;
    FieldAt(x, r, i);
    if !FieldCopy(src[i]).Copied? {
      FieldsSoFar(out, ys, x.fields, src, i, r);
      CopyFieldsFirstFailure(src, i);
    }
  }

  lemma FieldsDone(x: HValue, r: set<Cell>, out: seq<HField>, ys: set<Cell>)
    requires x.HStruct? && Closed(x, r)
    requires FieldsCopied(out, ys, x.fields, Abs(x, r).fields, |x.fields|, r)
    ensures Closed(HStruct(out), r + ys)
    ensures Copies(HStruct(out), ys, x, r)
  {
    var src := Abs(x, r).fields;
    var c := CopyFields(src);
    assert c.Copied?;
    assert Abs(HStruct(out), r + ys).fields == c.value.fields;
    if Unshared(Abs(x, r)) {
      assert Closed(HStruct(out), ys);
    }
  }
}
