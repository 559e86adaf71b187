/** Whole patch documents on struct values, after the examples the
    repository's tests exercise (encode_test.go). Segment names are
    parameters; the names the tests spell out (`phones`, `m`, `child`) are
    instances of them. */
module PatchScenarios {
  import opened Values
  import opened GoStrings
  import opened FieldMatch
  import opened JsonPatch
  import PatchLaws

  /** The path `/seg/rest`. */
  function Path(seg: string, rest: string): string
  {
    ['/'] + seg + ['/'] + rest
  }

  /** Trimming `/seg/rest` of its outer `/` leaves `seg/rest`. */
  lemma TrimmedPath(seg: string, rest: string)
    requires seg != [] && seg[0] != '/' && rest != [] && rest[|rest| - 1] != '/'
    ensures Trim(Path(seg, rest), '/') == seg + ['/'] + rest
  {
    var t := seg + ['/'] + rest;
    assert Path(seg, rest)[1..] == t;
    assert TrimLeft(t, '/') == t;
    assert TrimLeft(Path(seg, rest), '/') == t;
    assert t[|t| - 1] == rest[|rest| - 1];
    assert TrimRight(t, '/') == t;
  }

  lemma SplitAt(a: string, b: string)
    requires '/' !in a
    ensures SplitN2(a + ['/'] + b, '/') == [a, b]
  {
    IndexOfPrefix(a, '/', b);
    var s := a + ['/'] + b;
    assert s[..|a|] == a;
    assert s[|a| + 1..] == b;
  }

  /** A path of two segments or more goes to `findNode` with its first
      segment and the rest. */
  lemma RapplySplits(seg: string, rest: string, p: Patch, v: Value, zeroOf: TypeId -> Value)
    requires '/' !in seg
    ensures Rapply(seg + ['/'] + rest, p, v, zeroOf) == FindNode(seg, rest, p, v, zeroOf)
  {
    SplitAt(seg, rest);
  }

  /** Below a struct field that is not a pointer, the walk goes on in the
      field's value and the result is written back into the field. */
  lemma WalkPlainField(seg: string, rest: string, p: Patch, fs: seq<Field>, zeroOf: TypeId -> Value)
    requires Resolve(seg, fs).Some? && !fs[Resolve(seg, fs).value].val.Ref?
    ensures var i := Resolve(seg, fs).value;
            FindNode(seg, rest, p, Struct(fs), zeroOf) ==
              match Rapply(rest, p, fs[i].val, zeroOf)
              case Ok(c) => Ok(Struct(fs[i := fs[i].(val := c)]))
              case other => other
  {
  }

  /** One patch at `/seg/rest` on a struct whose field `seg` resolves to a
      non-pointer value: the rest of the path works on that field. */
  lemma FieldStep(seg: string, rest: string, p: Patch, fs: seq<Field>, zeroOf: TypeId -> Value)
    requires seg != [] && '/' !in seg && rest != [] && rest[|rest| - 1] != '/'
    requires p.path == Path(seg, rest)
    requires Resolve(seg, fs).Some? && !fs[Resolve(seg, fs).value].val.Ref?
    ensures var i := Resolve(seg, fs).value;
            Step(Struct(fs), p, zeroOf) ==
              match Rapply(rest, p, fs[i].val, zeroOf)
              case Ok(c) => Ok(Struct(fs[i := fs[i].(val := c)]))
              case other => other
  {
    assert seg[0] in seg;
    TrimmedPath(seg, rest);
    RapplySplits(seg, rest, p, Struct(fs), zeroOf);
    WalkPlainField(seg, rest, p, fs, zeroOf);
  }

  lemma RunOne(w: Value, p: Patch, zeroOf: TypeId -> Value)
    ensures RunPatches(w, [p], zeroOf) == Step(w, p, zeroOf)
  {
    assert [p][1..] == [];
  }

  lemma RunFirst(w: Value, ps: seq<Patch>, w1: Value, zeroOf: TypeId -> Value)
    requires ps != [] && Step(w, ps[0], zeroOf) == Ok(w1)
    ensures RunPatches(w, ps, zeroOf) == RunPatches(w1, ps[1..], zeroOf)
  {
  }

  lemma RunTwo(w: Value, p: Patch, q: Patch, w1: Value, w2: Value, zeroOf: TypeId -> Value)
    requires Step(w, p, zeroOf) == Ok(w1) && Step(w1, q, zeroOf) == Ok(w2)
    ensures RunPatches(w, [p, q], zeroOf) == Ok(w2)
  {
    RunFirst(w, [p, q], w1, zeroOf);
    assert [p, q][1..] == [q];
    RunOne(w1, q, zeroOf);
  }

  /** An `add` at `/seg/-` of a value that is neither `null` nor a pointer,
      on a field holding a slice, appends to it. */
  lemma AppendStep(seg: string, fs: seq<Field>, i: nat, es: seq<Value>, p: Patch, zeroOf: TypeId -> Value)
    requires seg != [] && '/' !in seg && !IsNull(p.value) && !p.value.Ref?
    requires Resolve(seg, fs) == Some(i) && fs[i].val == Slice(es)
    requires p.op == "add" && p.path == Path(seg, "-")
    ensures Step(Struct(fs), p, zeroOf) == Ok(Struct(fs[i := fs[i].(val := Slice(es + [p.value]))]))
  {
    FieldStep(seg, "-", p, fs, zeroOf);
  }

  /** An `add` at `/seg/n`, `n` the numeral of an index of the slice the field
      holds, inserts there a value that is not `null`, before an element that
      is not a pointer. */
  lemma InsertStep(seg: string, n: string, fs: seq<Field>, i: nat, es: seq<Value>, p: Patch, zeroOf: TypeId -> Value)
    requires seg != [] && '/' !in seg && n != "-" && n != [] && '/' !in n
    requires Atoi(n).Some? && 0 <= Atoi(n).value < |es|
    requires !IsNull(p.value) && !es[Atoi(n).value].Ref?
    requires Resolve(seg, fs) == Some(i) && fs[i].val == Slice(es)
    requires p.op == "add" && p.path == Path(seg, n)
    ensures var k := Atoi(n).value;
            Step(Struct(fs), p, zeroOf) == Ok(Struct(fs[i := fs[i].(val := Slice(es[..k] + [p.value] + es[k..]))]))
  {
    assert n[|n| - 1] in n;
    FieldStep(seg, n, p, fs, zeroOf);
    var k := Atoi(n).value;
    var after := AddToSlice(n, p.value, es).value.elems;
    assert after == es[..k] + [p.value] + es[k..] by {
      assert after[..k] == es[..k] && after[k] == p.value && after[k + 1..] == es[k..];
      assert after == after[..k] + [after[k]] + after[k + 1..];
    }
  }

  lemma AppendedElem(es: seq<Value>, k: nat, x: Value)
    requires k <= |es| && !x.Ref? && (k < |es| ==> !es[k].Ref?)
    ensures !(es + [x])[k].Ref?
  {
    if k < |es| {
      assert (es + [x])[k] == es[k];
    }
  }

  lemma AppendedInsert(es: seq<Value>, k: nat, x: Value, y: Value)
    requires k <= |es|
    ensures (es + [x])[..k] + [y] + (es + [x])[k..] == es[..k] + [y] + es[k..] + [x]
  {
    assert (es + [x])[..k] == es[..k];
    assert (es + [x])[k..] == es[k..] + [x];
  }

  /** Writing a field's value leaves field resolution as it was. */
  lemma ResolveAfterWrite(seg: string, fs: seq<Field>, i: nat, x: Value)
    requires i < |fs|
    ensures Resolve(seg, fs[i := fs[i].(val := x)]) == Resolve(seg, fs)
  {
    PatchLaws.ResolveByShape(seg, fs, fs[i := fs[i].(val := x)]);
  }

  lemma WriteTwice(fs: seq<Field>, i: nat, x: Value, y: Value)
    requires i < |fs|
    ensures var gs := fs[i := fs[i].(val := x)];
            gs[i := gs[i].(val := y)] == fs[i := fs[i].(val := y)]
  {
  }

  lemma InsertAfterAppend(seg: string, n: string, fs1: seq<Field>, i: nat, es: seq<Value>, x: Value, q: Patch, zeroOf: TypeId -> Value)
    requires seg != [] && '/' !in seg && n != "-" && n != [] && '/' !in n
    requires Atoi(n).Some? && 0 <= Atoi(n).value <= |es|
    requires !IsNull(q.value) && !(es + [x])[Atoi(n).value].Ref?
    requires Resolve(seg, fs1) == Some(i) && fs1[i].val == Slice(es + [x])
    requires q.op == "add" && q.path == Path(seg, n)
    ensures var k := Atoi(n).value;
            Step(Struct(fs1), q, zeroOf) == Ok(Struct(fs1[i := fs1[i].(val := Slice(es[..k] + [q.value] + es[k..] + [x]))]))
  {
    InsertStep(seg, n, fs1, i, es + [x], q, zeroOf);
    AppendedInsert(es, Atoi(n).value, x, q.value);
  }

  /** `add` at `/phones/-` then at `/phones/1` (encode_test.go:37-38, 57-62):
      the appended value ends up last, the inserted one at its index. On the
      test's one-element slice `[e]` with `n` = `1` this is `[e, y, x]`. The
      values are not `null` and the elements not pointers, as in the test's
      `[]string`. */
  lemma AppendThenInsert(seg: string, n: string, fs: seq<Field>, i: nat, es: seq<Value>, p: Patch, q: Patch, zeroOf: TypeId -> Value)
    requires seg != [] && '/' !in seg && n != "-" && n != [] && '/' !in n
    requires Atoi(n).Some? && 0 <= Atoi(n).value <= |es|
    requires !IsNull(p.value) && !p.value.Ref? && !IsNull(q.value)
    requires Atoi(n).value < |es| ==> !es[Atoi(n).value].Ref?
    requires Resolve(seg, fs) == Some(i) && fs[i].val == Slice(es)
    requires p.op == "add" && p.path == Path(seg, "-")
    requires q.op == "add" && q.path == Path(seg, n)
    ensures var k := Atoi(n).value;
            RunPatches(Struct(fs), [p, q], zeroOf)
              == Ok(Struct(fs[i := fs[i].(val := Slice(es[..k] + [q.value] + es[k..] + [p.value]))]))
  {
    var k := Atoi(n).value;
    var fs1 := fs[i := fs[i].(val := Slice(es + [p.value]))];
    var fs2 := fs[i := fs[i].(val := Slice(es[..k] + [q.value] + es[k..] + [p.value]))];
    AppendThenInsertSteps(seg, n, fs, i, es, p, q, zeroOf);
    RunTwo(Struct(fs), p, q, Struct(fs1), Struct(fs2), zeroOf);
  }

  lemma AppendThenInsertSteps(seg: string, n: string, fs: seq<Field>, i: nat, es: seq<Value>, p: Patch, q: Patch, zeroOf: TypeId -> Value)
    requires seg != [] && '/' !in seg && n != "-" && n != [] && '/' !in n
    requires Atoi(n).Some? && 0 <= Atoi(n).value <= |es|
    requires !IsNull(p.value) && !p.value.Ref? && !IsNull(q.value)
    requires Atoi(n).value < |es| ==> !es[Atoi(n).value].Ref?
    requires Resolve(seg, fs) == Some(i) && fs[i].val == Slice(es)
    requires p.op == "add" && p.path == Path(seg, "-")
    requires q.op == "add" && q.path == Path(seg, n)
    ensures var fs1 := fs[i := fs[i].(val := Slice(es + [p.value]))];
            Step(Struct(fs), p, zeroOf) == Ok(Struct(fs1))
    ensures var fs1 := fs[i := fs[i].(val := Slice(es + [p.value]))];
            var k := Atoi(n).value;
            Step(Struct(fs1), q, zeroOf) ==
              Ok(Struct(fs[i := fs[i].(val := Slice(es[..k] + [q.value] + es[k..] + [p.value]))]))
  {
    var k := Atoi(n).value;
    var fs1 := fs[i := fs[i].(val := Slice(es + [p.value]))];
    var after := es[..k] + [q.value] + es[k..] + [p.value];
    AppendedElem(es, k, p.value);
    AppendStep(seg, fs, i, es, p, zeroOf);
    ResolveAfterWrite(seg, fs, i, Slice(es + [p.value]));
    InsertAfterAppend(seg, n, fs1, i, es, p.value, q, zeroOf);
    WriteTwice(fs, i, Slice(es + [p.value]), Slice(after));
  }

  lemma RemoveAtKey(key: string, p: Patch, m: map<string, Value>, zeroOf: TypeId -> Value)
    requires '/' !in key && key in m && p.op == "remove"
    ensures Rapply(key, p, Map(m), zeroOf) == Ok(Map(m[key := ZeroLike(m[key])]))
  {
  }

  /** `remove` of `/m/a` (encode_test.go:168, 189): the key stays, holding
      the zero value of its type. */
  lemma RemoveKeepsKey(seg: string, key: string, fs: seq<Field>, i: nat, m: map<string, Value>, p: Patch, zeroOf: TypeId -> Value)
    requires seg != [] && '/' !in seg && key != [] && '/' !in key
    requires Resolve(seg, fs) == Some(i) && fs[i].val == Map(m) && key in m
    requires p.op == "remove" && p.path == Path(seg, key)
    ensures RunPatches(Struct(fs), [p], zeroOf) == Ok(Struct(fs[i := fs[i].(val := Map(m[key := ZeroLike(m[key])]))]))
  {
    assert key[|key| - 1] in key;
    FieldStep(seg, key, p, fs, zeroOf);
    RemoveAtKey(key, p, m, zeroOf);
    RunOne(Struct(fs), p, zeroOf);
  }

  /** Below a struct field holding a nil pointer, the walk goes on in the
      zero value of the pointer's target type, which becomes the target. */
  lemma FindNodeInNilField(seg: string, rest: string, p: Patch, fs: seq<Field>, i: nat, t: TypeId,
                           zeroOf: TypeId -> Value)
    requires Resolve(seg, fs) == Some(i) && fs[i].val == Ref(t, None)
    ensures FindNode(seg, rest, p, Struct(fs), zeroOf) ==
              match Rapply(rest, p, zeroOf(t), zeroOf)
              case Ok(w) => Ok(Struct(fs[i := fs[i].(val := Ref(t, Some(w)))]))
              case other => other
  {
  }

  /** An `add` of a value other than `null` at a last segment naming a field
      sets that field. */
  lemma AddAtField(rest: string, p: Patch, gs: seq<Field>, j: nat, zeroOf: TypeId -> Value)
    requires '/' !in rest && Resolve(rest, gs) == Some(j) && p.op == "add" && !IsNull(p.value)
    ensures Rapply(rest, p, Struct(gs), zeroOf) == Ok(Struct(gs[j := gs[j].(val := p.value)]))
  {
  }

  /** `add` of `/child/name` on a nil `Child` (encode_test.go:36, 54): the
      pointer is allocated and the field below it set to the value, which is
      not `null` (the test writes a string). */
  lemma AddBelowNilPointer(seg: string, rest: string, fs: seq<Field>, i: nat, t: TypeId,
                           gs: seq<Field>, j: nat, p: Patch, zeroOf: TypeId -> Value)
    requires seg != [] && '/' !in seg && rest != [] && '/' !in rest
    requires Resolve(seg, fs) == Some(i) && fs[i].val == Ref(t, None)
    requires zeroOf(t) == Struct(gs) && Resolve(rest, gs) == Some(j)
    requires p.op == "add" && p.path == Path(seg, rest) && !IsNull(p.value)
    ensures RunPatches(Struct(fs), [p], zeroOf)
            == Ok(Struct(fs[i := fs[i].(val := Ref(t, Some(Struct(gs[j := gs[j].(val := p.value)]))))]))
  {
    assert seg[0] in seg && rest[|rest| - 1] in rest;
    TrimmedPath(seg, rest);
    RapplySplits(seg, rest, p, Struct(fs), zeroOf);
    FindNodeInNilField(seg, rest, p, fs, i, t, zeroOf);
    AddAtField(rest, p, gs, j, zeroOf);
    RunOne(Struct(fs), p, zeroOf);
  }

  /** Below a slice element holding a non-nil pointer, the walk goes on in
      the pointer's target. */
  lemma FindNodeInPointerElem(n: string, rest: string, p: Patch, es: seq<Value>, k: nat, t: TypeId, q: Value,
                              zeroOf: TypeId -> Value)
    requires Atoi(n) == Some(k) && k < |es| && es[k] == Ref(t, Some(q))
    ensures FindNode(n, rest, p, Slice(es), zeroOf) ==
              match Rapply(rest, p, q, zeroOf)
              case Ok(w) => Ok(Slice(es[k := Ref(t, Some(w))]))
              case other => other
  {
    PatchLaws.FindNodeInElem(n, rest, p, es, zeroOf);
    PatchLaws.DescendWalks(rest, p, es[k], zeroOf);
  }

  /** A `replace` at a last segment naming a field sets that field. */
  lemma ReplaceAtField(rest: string, p: Patch, gs: seq<Field>, j: nat, zeroOf: TypeId -> Value)
    requires '/' !in rest && Resolve(rest, gs) == Some(j) && p.op == "replace"
    ensures Rapply(rest, p, Struct(gs), zeroOf) == Ok(Struct(gs[j := gs[j].(val := p.value)]))
  {
  }

  /** `replace` of `/0/name` on a slice of non-nil pointers to structs
      (encode_test.go:83-102): the element keeps its pointer, whose target
      gets the field set. */
  lemma ReplaceBelowElement(n: string, rest: string, es: seq<Value>, k: nat, t: TypeId,
                            gs: seq<Field>, j: nat, p: Patch, zeroOf: TypeId -> Value)
    requires n != [] && '/' !in n && rest != [] && '/' !in rest
    requires Atoi(n) == Some(k) && k < |es| && es[k] == Ref(t, Some(Struct(gs)))
    requires Resolve(rest, gs) == Some(j)
    requires p.op == "replace" && p.path == Path(n, rest)
    ensures RunPatches(Slice(es), [p], zeroOf)
            == Ok(Slice(es[k := Ref(t, Some(Struct(gs[j := gs[j].(val := p.value)])))]))
  {
    assert n[0] in n && rest[|rest| - 1] in rest;
    TrimmedPath(n, rest);
    RapplySplits(n, rest, p, Slice(es), zeroOf);
    FindNodeInPointerElem(n, rest, p, es, k, t, Struct(gs), zeroOf);
    ReplaceAtField(rest, p, gs, j, zeroOf);
    RunOne(Slice(es), p, zeroOf);
  }

  /** Trimming `/seg` of its `/` leaves `seg`. */
  lemma TrimmedSegment(seg: string)
    requires seg != [] && seg[0] != '/' && seg[|seg| - 1] != '/'
    ensures Trim(['/'] + seg, '/') == seg
  {
    assert (['/'] + seg)[1..] == seg;
    assert TrimLeft(['/'] + seg, '/') == seg;
  }

  /** A `test` at a last segment naming a field that is not a pointer
      compares that field with the patch value, which must not be `null`. */
  lemma TestField(seg: string, p: Patch, fs: seq<Field>, i: nat, zeroOf: TypeId -> Value)
    requires '/' !in seg && Resolve(seg, fs) == Some(i) && !fs[i].val.Ref? && p.op == "test"
    ensures Rapply(seg, p, Struct(fs), zeroOf) ==
              if IsNull(p.value) then Panic
              else if p.value == fs[i].val then Ok(Struct(fs)) else Err(NotEqual)
  {
    assert Locate(seg, Struct(fs)) == At(fs[i].val);
  }

  /** `test` of `/name` against a field that is not a pointer
      (encode_test.go:199-211): it passes, changing nothing, exactly when the
      field holds the patch value. */
  lemma TestAtField(seg: string, fs: seq<Field>, i: nat, p: Patch, zeroOf: TypeId -> Value)
    requires seg != [] && '/' !in seg
    requires Resolve(seg, fs) == Some(i) && !fs[i].val.Ref?
    requires p.op == "test" && p.path == ['/'] + seg
    ensures RunPatches(Struct(fs), [p], zeroOf) ==
              if IsNull(p.value) then Panic
              else if p.value == fs[i].val then Ok(Struct(fs)) else Err(NotEqual)
  {
    assert seg[0] in seg && seg[|seg| - 1] in seg;
    TrimmedSegment(seg);
    TestField(seg, p, fs, i, zeroOf);
    RunOne(Struct(fs), p, zeroOf);
  }
}
