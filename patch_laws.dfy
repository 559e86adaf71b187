/** Laws relating the operations of `JsonPatch` to one another: inverse
    pairs, reading back what was written, sequencing, and what a read-only
    operation can change. */
module PatchLaws {
  import opened Values
  import opened GoStrings
  import opened FieldMatch
  import opened JsonPatch
  import DeepSpec

  /** Removing at the index just inserted at restores the slice, except
      that a non-nil pointer element at that index was decoded into: it
      keeps pointing at the inserted target. */
  lemma RemoveUndoesInsert(node: string, x: Value, es: seq<Value>)
    requires node != "-" && AddToSlice(node, x, es).Ok?
    ensures var pos := Atoi(node).value;
            var after := AddToSlice(node, x, es).value.elems;
            RemoveFromSlice(node, after) == Ok(Slice(if es[pos].Ref? then es[pos := after[pos]] else es))
  {
    var pos := Atoi(node).value;
    var after := AddToSlice(node, x, es).value.elems;
    var kept := if es[pos].Ref? then es[pos := after[pos]] else es;
    var back := RemoveFromSlice(node, after).value.elems;
    assert back == kept by {
      assert back[..pos] == after[..pos] == kept[..pos];
      assert back[pos..] == after[pos + 1..] == kept[pos..];
      assert back == back[..pos] + back[pos..];
      assert kept == kept[..pos] + kept[pos..];
    }
  }

  /** Appending (`-`) succeeds exactly for a value that is neither JSON
      `null` nor a pointer (the fresh element a pointer is decoded into is
      nil), and removing the last element then restores the slice; the index
      is written as its decimal numeral. */
  lemma RemoveUndoesAppend(x: Value, es: seq<Value>)
    requires |es| <= MaxInt64
    ensures AddToSlice("-", x, es).Ok? <==> !IsNull(x) && !x.Ref?
    ensures AddToSlice("-", x, es).Ok? ==>
              RemoveFromSlice(Itoa(|es|), AddToSlice("-", x, es).value.elems) == Ok(Slice(es))
  {
    AtoiItoa(|es|);
    if AddToSlice("-", x, es).Ok? {
      var after := AddToSlice("-", x, es).value.elems;
      assert RemoveFromSlice(Itoa(|es|), after).value.elems == after[..|es|];
    }
  }

  /** Inserting back the removed element restores the slice when the element
      that moved into its place is not a pointer; a non-nil pointer there is
      decoded into, so the pointer appears at both indices, and a nil one
      or a JSON `null` makes the insertion panic. */
  lemma InsertUndoesRemove(node: string, es: seq<Value>)
    requires RemoveFromSlice(node, es).Ok? && Atoi(node).value < |es| - 1
    ensures var pos := Atoi(node).value;
            var d := Decode(es[pos + 1], es[pos]);
            var r := AddToSlice(node, es[pos], RemoveFromSlice(node, es).value.elems);
            && (d.Into? ==>
                  r == Ok(Slice(if es[pos + 1].Ref? then es[pos := d.value][pos + 1 := d.value] else es)))
            && (!d.Into? ==> r.Panic?)
  {
    var pos := Atoi(node).value;
    var after := RemoveFromSlice(node, es).value.elems;
    assert node != "-";
    assert after[pos] == es[pos + 1];
    var d := Decode(es[pos + 1], es[pos]);
    if d.Into? {
      var want := if es[pos + 1].Ref? then es[pos := d.value][pos + 1 := d.value] else es;
      var back := AddToSlice(node, es[pos], after).value.elems;
      assert back == want by {
        assert back[..pos] == after[..pos] == want[..pos];
        assert back[pos + 1..] == want[pos + 1..];
        assert back == back[..pos] + [back[pos]] + back[pos + 1..];
        assert want == want[..pos] + [want[pos]] + want[pos + 1..];
      }
    }
  }

  /** The value a `test` needs to read back what was written with `x`: a
      slice element that is a pointer is compared by its target. */
  function TestValue(x: Value, v: Value): Value
  {
    if v.Slice? && x.Ref? && x.target.Some? then x.target.value else x
  }

  /** What that `test` gives: it passes, unless the value it is given is
      JSON `null`, which leaves reflection a nil interface (or, at a map
      key, has deleted the key). */
  function ReadBack(x: Value, v: Value, w: Value): Outcome
  {
    if IsNull(TestValue(x, v)) then Panic else Ok(w)
  }

  /** After a successful `replace` on a slice, map or struct, a `test` of
      the same place against the value written reads it back. */
  lemma ReplaceThenTest(node: string, x: Value, v: Value)
    requires v.Slice? || v.Map? || v.NilMap? || v.Struct?
    requires Replace(node, x, v).Ok?
    ensures Test(node, TestValue(x, v), Replace(node, x, v).value) == ReadBack(x, v, Replace(node, x, v).value)
  {
    var w := Replace(node, x, v).value;
    if v.Struct? {
      ResolveByShape(node, v.fields, w.fields);
      var i := Resolve(node, v.fields).value;
      assert w.fields[i].val == x;
      assert w.fields[i := w.fields[i].(val := x)] == w.fields;
    } else if v.Slice? {
      var pos := Atoi(node).value;
      assert w.elems[pos] == Decode(v.elems[pos], x).value;
    } else if !IsNull(x) {
      var y := w.entries[node];
      assert y == Decode(v.entries[node], x).value;
      assert w.entries[node := y] == w.entries;
    }
  }

  /** After a successful `add` on a map or struct, or at an index of a
      slice, a `test` of the same place against the value written reads it
      back. */
  lemma AddThenTest(node: string, x: Value, v: Value, zeroOf: TypeId -> Value)
    requires v.Slice? || v.Map? || v.NilMap? || v.Struct?
    requires v.Slice? ==> node != "-"
    requires Add(node, x, v, zeroOf).Ok?
    ensures Test(node, TestValue(x, v), Add(node, x, v, zeroOf).value) == ReadBack(x, v, Add(node, x, v, zeroOf).value)
  {
    var w := Add(node, x, v, zeroOf).value;
    if v.Struct? {
      ResolveByShape(node, v.fields, w.fields);
      var i := Resolve(node, v.fields).value;
      var f := v.fields[i].val;
      if f.Ref? && f.target.None? && IsNull(x) {
        assert Locate(node, w) == Pointer(f.elem);
      } else {
        assert w.fields[i].val == x;
        assert w.fields[i := w.fields[i].(val := x)] == w.fields;
      }
    } else if v.Slice? {
      var pos := Atoi(node).value;
      assert w.elems[pos] == Decode(v.elems[pos], x).value;
    } else if !IsNull(x) {
      assert w.entries[node := x] == w.entries;
    }
  }

  /** After a successful `remove` of a map key, the key holds the zero value
      of its type, and a `test` against that zero value passes; the zero
      value of a pointer or a map is nil, which `test` cannot decode into. */
  lemma RemoveThenTestZero(node: string, v: Value)
    requires v.Map? && node in v.entries
    ensures Remove(node, v).Ok?
    ensures Test(node, ZeroLike(v.entries[node]), Remove(node, v).value) ==
              if v.entries[node].Ref? || v.entries[node].Map? || v.entries[node].NilMap? then Panic
              else Ok(Remove(node, v).value)
  {
  }

  /** Field resolution depends only on names and tags, which writing a field
      does not change. */
  lemma ResolveByShape(node: string, fs: seq<Field>, gs: seq<Field>)
    requires |fs| == |gs|
    requires forall i | 0 <= i < |fs| :: gs[i].(val := fs[i].val) == fs[i]
    ensures Resolve(node, gs) == Resolve(node, fs)
  {
    FirstMatchByShape(node, fs, gs);
    FieldIndexByShape(fs, gs, BestMatchOf(node, fs));
  }

  lemma {:induction false} FirstMatchByShape(node: string, fs: seq<Field>, gs: seq<Field>)
    requires |fs| == |gs|
    requires forall i | 0 <= i < |fs| :: gs[i].(val := fs[i].val) == fs[i]
    ensures FirstMatch(node, gs) == FirstMatch(node, fs)
    ensures BestMatchOf(node, gs) == BestMatchOf(node, fs)
    decreases |fs|
  {
    if fs != [] {
      assert gs[0].name == fs[0].name && gs[0].tag == fs[0].tag;
      assert Matches(gs[0], node) == Matches(fs[0], node);
      FirstMatchByShape(node, fs[1..], gs[1..]);
    }
  }

  lemma {:induction false} FieldIndexByShape(fs: seq<Field>, gs: seq<Field>, name: string)
    requires |fs| == |gs|
    requires forall i | 0 <= i < |fs| :: gs[i].(val := fs[i].val) == fs[i]
    ensures FieldIndex(gs, name) == FieldIndex(fs, name)
    decreases |fs|
  {
    if fs != [] {
      assert gs[0].name == fs[0].name;
      FieldIndexByShape(fs[1..], gs[1..], name);
    }
  }

  /** Running `a + b` is running `a`, then `b` on its result; an error or
      panic in `a` ends the run. */
  lemma {:induction false} RunPatchesAppend(w: Value, a: seq<Patch>, b: seq<Patch>, zeroOf: TypeId -> Value)
    ensures RunPatches(w, a + b, zeroOf) ==
              match RunPatches(w, a, zeroOf)
              case Ok(u) => RunPatches(u, b, zeroOf)
              case other => other
    decreases |a|
  {
    if a == [] {
      assert a + b == b;
    } else {
      assert (a + b)[0] == a[0] && (a + b)[1..] == a[1..] + b;
      var s := Step(w, a[0], zeroOf);
      assert RunPatches(w, a, zeroOf) == if s.Ok? then RunPatches(s.value, a[1..], zeroOf) else s;
      assert RunPatches(w, a + b, zeroOf) == if s.Ok? then RunPatches(s.value, a[1..] + b, zeroOf) else s;
      if s.Ok? {
        RunPatchesAppend(s.value, a[1..], b, zeroOf);
      }
    }
  }

  /** A read-only operation changes nothing but the nil pointers met on the
      way, which the walk allocates (encode.go:91-97, 127-134). */
  lemma {:induction false} RapplyGrows(path: string, p: Patch, v: Value, zeroOf: TypeId -> Value)
    requires ReadOnly(p.op) && Rapply(path, p, v, zeroOf).Ok?
    ensures Grown(v, Rapply(path, p, v, zeroOf).value, zeroOf)
    decreases |path|, 0
  {
    var args := SplitN2(path, '/');
    if |args| == 2 {
      FindNodeGrows(args[0], args[1], p, v, zeroOf);
    }
  }

  lemma {:induction false} DescendGrows(node: string, p: Patch, child: Value, zeroOf: TypeId -> Value)
    requires ReadOnly(p.op) && Descend(node, p, child, zeroOf).Ok?
    ensures Grown(child, Descend(node, p, child, zeroOf).value, zeroOf)
    decreases |node|, 1
  {
    match child
    case Ref(t, target) =>
      var pointee := if target.None? then zeroOf(t) else target.value;
      RapplyGrows(node, p, pointee, zeroOf);
    case _ =>
      RapplyGrows(node, p, child, zeroOf);
  }

  lemma {:induction false} FindNodeGrows(root: string, node: string, p: Patch, v: Value, zeroOf: TypeId -> Value)
    requires ReadOnly(p.op) && FindNode(root, node, p, v, zeroOf).Ok?
    ensures Grown(v, FindNode(root, node, p, v, zeroOf).value, zeroOf)
    decreases |node|, 2
  {
    var w := FindNode(root, node, p, v, zeroOf).value;
    match v
    case Slice(es) =>
      var pos := Atoi(root).value;
      DescendGrows(node, p, es[pos], zeroOf);
      forall i | 0 <= i < |es|
        ensures Grown(es[i], w.elems[i], zeroOf)
      {
      }
    case Map(m) =>
      RapplyGrows(node, p, m[root].target.value, zeroOf);
      forall k | k in w.entries
        ensures Grown(m[k], w.entries[k], zeroOf)
      {
      }
    case Struct(fs) =>
      var i := Resolve(root, fs).value;
      DescendGrows(node, p, fs[i].val, zeroOf);
      forall j | 0 <= j < |fs|
        ensures fs[j].(val := w.fields[j].val) == w.fields[j] && Grown(fs[j].val, w.fields[j].val, zeroOf)
      {
      }
    case Ref(t, Some(q)) =>
      DescendGrows(node, p, q, zeroOf);
  }

  /** Allocation is the only change a read-only operation can make: on a
      value without nil pointers, growing changes nothing. */
  lemma {:induction false} GrownNilFree(v: Value, w: Value, zeroOf: TypeId -> Value)
    requires DeepSpec.NilFree(v) && Grown(v, w, zeroOf)
    ensures w == v
    decreases w
  {
    if v != w {
      match w
      case Slice(ws) =>
        forall i | 0 <= i < |ws|
          ensures ws[i] == v.elems[i]
        {
          GrownNilFree(v.elems[i], ws[i], zeroOf);
        }
      case Map(wm) =>
        forall k | k in wm
          ensures wm[k] == v.entries[k]
        {
          GrownNilFree(v.entries[k], wm[k], zeroOf);
        }
      case Struct(wfs) =>
        forall i | 0 <= i < |wfs|
          ensures wfs[i] == v.fields[i]
        {
          GrownNilFree(v.fields[i].val, wfs[i].val, zeroOf);
        }
      case Ref(t, Some(x)) =>
        GrownNilFree(v.target.value, x, zeroOf);
    }
  }

  /** `copy`, `move` and unknown operations leave a value without nil
      pointers exactly as it was, whatever the path. */
  lemma ReadOnlyPreservesNilFree(path: string, p: Patch, v: Value, zeroOf: TypeId -> Value)
    requires ReadOnly(p.op) && DeepSpec.NilFree(v)
    requires Rapply(path, p, v, zeroOf).Ok?
    ensures Rapply(path, p, v, zeroOf).value == v
  {
    RapplyGrows(path, p, v, zeroOf);
    GrownNilFree(v, Rapply(path, p, v, zeroOf).value, zeroOf);
  }

  /** Walking on into a value: a pointer is followed to its target, a nil
      one to the zero value of its element type, which the walk's result
      then becomes the target of; any other value is walked in place. */
  lemma DescendWalks(node: string, p: Patch, child: Value, zeroOf: TypeId -> Value)
    ensures !child.Ref? ==> Descend(node, p, child, zeroOf) == Rapply(node, p, child, zeroOf)
    ensures child.Ref? ==>
              var inner := Rapply(node, p, if child.target.None? then zeroOf(child.elem) else child.target.value, zeroOf);
              && (Descend(node, p, child, zeroOf).Ok? <==> inner.Ok?)
              && (inner.Ok? ==> Descend(node, p, child, zeroOf) == Ok(Ref(child.elem, Some(inner.value))))
              && (!inner.Ok? ==> Descend(node, p, child, zeroOf) == inner)
  {
  }

  /** Through a slice: a negative index panics; at an index inside the
      slice only that element changes, to what the walk below it makes of
      it, and a failure below is passed on. */
  lemma FindNodeInElem(root: string, node: string, p: Patch, es: seq<Value>, zeroOf: TypeId -> Value)
    requires Atoi(root).Some? && Atoi(root).value < |es|
    ensures Atoi(root).value < 0 ==> FindNode(root, node, p, Slice(es), zeroOf).Panic?
    ensures 0 <= Atoi(root).value ==>
              var d := Descend(node, p, es[Atoi(root).value], zeroOf);
              var r := FindNode(root, node, p, Slice(es), zeroOf);
              && (r.Ok? <==> d.Ok?)
              && (d.Ok? ==> r.value.Slice? && Overwritten(es, Atoi(root).value, d.value, r.value.elems))
              && (!d.Ok? ==> r == d)
  {
  }

  /** Through a map key: only a key holding a non-nil pointer can be walked
      through, into the pointer's target; the key then holds a pointer to
      the walk's result and every other entry is kept. */
  lemma FindNodeAtKey(root: string, node: string, p: Patch, m: map<string, Value>, zeroOf: TypeId -> Value)
    requires root in m && m[root].Ref?
    ensures m[root].target.None? ==> FindNode(root, node, p, Map(m), zeroOf).Panic?
    ensures m[root].target.Some? ==>
              var d := Rapply(node, p, m[root].target.value, zeroOf);
              var r := FindNode(root, node, p, Map(m), zeroOf);
              && (r.Ok? <==> d.Ok?)
              && (d.Ok? ==> r.value.Map? && r.value.entries.Keys == m.Keys
                            && KeySet(m, root, Ref(m[root].elem, Some(d.value)), r.value.entries))
              && (!d.Ok? ==> r == d)
  {
  }

  /** Through a struct field: only the field `bestMatch` resolves changes,
      to what the walk below it makes of it. */
  lemma FindNodeInField(root: string, node: string, p: Patch, fs: seq<Field>, zeroOf: TypeId -> Value)
    requires Resolve(root, fs).Some?
    ensures var i := Resolve(root, fs).value;
            var d := Descend(node, p, fs[i].val, zeroOf);
            var r := FindNode(root, node, p, Struct(fs), zeroOf);
            && (r.Ok? <==> d.Ok?)
            && (d.Ok? ==> r.value.Struct? && FieldSet(fs, i, d.value, r.value.fields))
            && (!d.Ok? ==> r == d)
  {
  }

  /** Through a pointer to a pointer: a nil one panics, a non-nil one is
      followed without looking at the segment `root` at all. */
  lemma FindNodeThroughPointer(root: string, node: string, p: Patch, t: TypeId, target: Option<Value>, zeroOf: TypeId -> Value)
    ensures target.None? ==> FindNode(root, node, p, Ref(t, target), zeroOf).Panic?
    ensures target.Some? ==>
              var d := Descend(node, p, target.value, zeroOf);
              var r := FindNode(root, node, p, Ref(t, target), zeroOf);
              && (r.Ok? <==> d.Ok?)
              && (d.Ok? ==> r == Ok(Ref(t, Some(d.value))))
              && (!d.Ok? ==> r == d)
  {
  }

  /** A nil pointer field met on the way is allocated as the zero value of
      its element type and the walk continues inside it. */
  lemma NilFieldAllocated(root: string, node: string, p: Patch, fs: seq<Field>, t: TypeId, zeroOf: TypeId -> Value)
    requires Resolve(root, fs).Some? && fs[Resolve(root, fs).value].val == Ref(t, None)
    requires Rapply(node, p, zeroOf(t), zeroOf).Ok?
    ensures FindNode(root, node, p, Struct(fs), zeroOf) ==
              var i := Resolve(root, fs).value;
              Ok(Struct(fs[i := fs[i].(val := Ref(t, Some(Rapply(node, p, zeroOf(t), zeroOf).value)))]))
  {
  }

  lemma {:induction false} FindNodeRefuses(root: string, node: string, p: Patch, v: Value, zeroOf: TypeId -> Value)
    requires p.op == "copy" || p.op == "move"
    ensures !FindNode(root, node, p, v, zeroOf).Ok?
    decreases |node|, 1
  {
    forall q: Value
      ensures !Rapply(node, p, q, zeroOf).Ok?
    {
      CopyMoveRefused(node, p, q, zeroOf);
    }
    forall c: Value
      ensures !Descend(node, p, c, zeroOf).Ok?
    {
    }
  }

  /** `copy` and `move` are refused wherever they point. */
  lemma {:induction false} CopyMoveRefused(path: string, p: Patch, v: Value, zeroOf: TypeId -> Value)
    requires p.op == "copy" || p.op == "move"
    ensures !Rapply(path, p, v, zeroOf).Ok?
    decreases |path|, 0
  {
    var args := SplitN2(path, '/');
    if |args| == 2 {
      FindNodeRefuses(args[0], args[1], p, v, zeroOf);
    }
  }
}
