/** The patch applier of encode.go: the path walk (`rapply`, `findNode`),
    the operations (`applyNode`, `add`, `replace`, `remove`, `test`) and the
    all-or-nothing `Apply`. Every operation works on the value its pointer
    argument points to and yields the updated value, an error, or `Panic`
    where Go's reflection would abort the program. */
module JsonPatch {
  import opened Values
  import opened GoStrings
  import opened FieldMatch
  import DeepSpec

  /** The errors the applier returns. */
  datatype Error =
    | NonPointer               // ErrNonPointer
    | CouldNotCopy             // ErrCouldNotCopy
    | IncorrectIndex           // ErrIncorrectIndex
    | NotImplemented           // ErrNotImplemented
    | Unsupported(key: string) // *ErrUnsupported, naming the path segment
    | PrimitiveHasNoFields     // "jsonpatch: primitive types cannot have fields"
    | MapElementNotFound       // "map element not found"
    | NotEqual                 // "elements are not equal"

  datatype Outcome = Ok(value: Value) | Err(error: Error) | Panic

  /** One operation of a patch document. Its `value` is already decoded and
      is taken to have the type of the place it is written to, which Go
      guarantees only for struct fields; JSON `null` is a nil pointer or a
      nil map. */
  datatype Patch = Patch(op: string, path: string, from: string, value: Value)

  // ----- Sequence, map and field algebra -----

  /** `after` is `before` with `x` inserted at `pos` (appended when `pos` is
      the length). */
  predicate Inserted(before: seq<Value>, pos: int, x: Value, after: seq<Value>)
  {
    && 0 <= pos <= |before|
    && |after| == |before| + 1
    && after[..pos] == before[..pos]
    && after[pos] == x
    && after[pos + 1..] == before[pos..]
  }

  /** `after` is `before` without its element at `pos`. */
  predicate Excised(before: seq<Value>, pos: int, after: seq<Value>)
  {
    && 0 <= pos < |before|
    && |after| == |before| - 1
    && after[..pos] == before[..pos]
    && after[pos..] == before[pos + 1..]
  }

  /** `after` is `before` with only its element at `pos` changed, to `x`. */
  predicate Overwritten(before: seq<Value>, pos: int, x: Value, after: seq<Value>)
  {
    && 0 <= pos < |before|
    && |after| == |before|
    && after[pos] == x
    && forall j | 0 <= j < |before| && j != pos :: after[j] == before[j]
  }

  /** `after` is `before` with key `k` bound to `x`, every other entry kept. */
  predicate KeySet(before: map<string, Value>, k: string, x: Value, after: map<string, Value>)
  {
    && after.Keys == before.Keys + {k}
    && after[k] == x
    && forall j | j in before && j != k :: after[j] == before[j]
  }

  /** `after` is the field list `before` with only the value of field `i`
      changed, to `x`. */
  predicate FieldSet(before: seq<Field>, i: int, x: Value, after: seq<Field>)
  {
    && 0 <= i < |before|
    && |after| == |before|
    && after[i] == before[i].(val := x)
    && forall j | 0 <= j < |before| && j != i :: after[j] == before[j]
  }

  /** The entries of a map, a nil map having none. */
  function EntriesOf(v: Value): map<string, Value>
    requires v.Map? || v.NilMap?
  {
    if v.Map? then v.entries else map[]
  }

  /** The same Go type as far as the model can tell: the same kind, and for
      a struct the same fields, for a pointer the same element type. */
  predicate SameShape(v: Value, w: Value)
  {
    match v
    case Prim(s) => w.Prim? && s.Int? == w.s.Int? && s.Str? == w.s.Str?
    case Slice(_) => w.Slice?
    case NilMap => w.NilMap? || w.Map?
    case Map(_) => w.NilMap? || w.Map?
    case Struct(fs) =>
      && w.Struct? && |w.fields| == |fs|
      && forall i | 0 <= i < |fs| :: w.fields[i].(val := fs[i].val) == fs[i]
    case Ref(t, _) => w.Ref? && w.elem == t
    case Opaque(k) => w == v
  }

  /** The field `bestMatch` names, found as `FieldByName` finds it. */
  function Resolve(node: string, fs: seq<Field>): (r: Option<nat>)
    ensures r.Some? <==> BestMatchOf(node, fs) != ""
    ensures r.Some? ==> r.value < |fs| && fs[r.value].name == BestMatchOf(node, fs)
  {
    var name := BestMatchOf(node, fs);
    if name == "" then None
    else
      BestMatchNamesAField(node, fs);
      FieldIndex(fs, name)
  }

  // ----- Decoding into an existing element (encode.go:210-244, 298-316, 416-418) -----

  /** The values only JSON `null` decodes to: a nil pointer and a nil map. */
  predicate IsNull(x: Value)
  {
    x.NilMap? || (x.Ref? && x.target.None?)
  }

  /** What `json.Unmarshal(p.Value, &n)` leaves in `n := child.Interface()`:
      a value to write back, a nil interface (JSON `null`), or a value whose
      type does not fit the element. */
  datatype Decoded = Into(value: Value) | NilInterface | Mismatch

  /** Decoding the patch value `x` into an interface holding `current`. A
      non-nil pointer is decoded through, so the result is that same pointer
      with a new target; a nil pointer is replaced by a JSON object or
      number, which does not fit the element's pointer type, and writing it
      panics. A value that is not a pointer, meeting a non-nil pointer, is
      ill-typed for that place: Go would decode through the pointer or
      return a decode error, and the model, which assumes well-typed values,
      refuses it as `Mismatch`. */
  function Decode(current: Value, x: Value): (d: Decoded)
    ensures d.NilInterface? <==> IsNull(x)
    ensures d.Mismatch? <==> !IsNull(x) && current.Ref? && (current.target.None? || !x.Ref?)
    ensures d.Into? ==> !IsNull(d.value)
    ensures d.Into? && !current.Ref? ==> d.value == x
    ensures d.Into? && current.Ref? ==>
              d.value.Ref? && d.value.elem == current.elem && d.value.target == x.target
  {
    if IsNull(x) then NilInterface
    else
      match current
      case Ref(t, Some(_)) => if x.Ref? then Into(Ref(t, x.target)) else Mismatch
      case Ref(_, None) => Mismatch
      case _ => Into(x)
  }

  // ----- add (encode.go:194-281) -----

  /** `add` on a slice: `-` appends, a numeral inserts before that index.
      The value is decoded into the slot it starts from: for `-` a fresh
      zero element, which for a pointer type is nil; at an index the element
      already there, so that a non-nil pointer element has its target
      overwritten and then appears twice. */
  function AddToSlice(node: string, x: Value, es: seq<Value>): (r: Outcome)
    ensures node == "-" && (IsNull(x) || x.Ref?) ==> r.Panic?
    ensures node == "-" && !IsNull(x) && !x.Ref? ==>
              r.Ok? && r.value.Slice? && Inserted(es, |es|, x, r.value.elems)
    ensures node != "-" && Atoi(node).None? ==> r == Err(IncorrectIndex)
    ensures node != "-" && Atoi(node).Some? && 0 <= Atoi(node).value < |es| ==>
              var pos := Atoi(node).value;
              var d := Decode(es[pos], x);
              && (d.Into? ==>
                    && r.Ok? && r.value.Slice?
                    && Inserted(if es[pos].Ref? then es[pos := d.value] else es, pos, d.value, r.value.elems))
              && (!d.Into? ==> r.Panic?)
    ensures node != "-" && Atoi(node).Some? && !(0 <= Atoi(node).value < |es|) ==> r.Panic?
  {
    if node == "-" then
      match Decode(ZeroLike(x), x)
      case Into(w) =>
        assert (es + [w])[..|es|] == es;
        Ok(Slice(es + [w]))
      case _ => Panic  // `child.Set` of a nil interface or a mismatched value
    else
      match Atoi(node)
      case None => Err(IncorrectIndex)
      case Some(pos) =>
        if pos < 0 || pos >= |es| then Panic  // v.Index(pos) out of range
        else
          match Decode(es[pos], x)
          case Into(w) =>
            var kept := if es[pos].Ref? then es[pos := w] else es;
            var after := es[..pos] + [w] + kept[pos..];
            assert after[..pos] == kept[..pos];
            assert after[pos + 1..] == kept[pos..];
            Ok(Slice(after))
          case _ => Panic  // `reflect.Append` of a nil interface or a mismatched value
  }

  /** `add` on a map: a nil map is created, then the key is set to the value
      decoded into the zero element. A JSON `null` deletes the key instead,
      and a pointer element type gets a nil pointer nothing is decoded into. */
  function AddToMap(node: string, x: Value, v: Value): (r: Outcome)
    requires v.Map? || v.NilMap?
    ensures IsNull(x) ==> r.Ok? && r.value.Map? && r.value.entries == EntriesOf(v) - {node}
    ensures !IsNull(x) && x.Ref? ==> r.Panic?
    ensures !IsNull(x) && !x.Ref? ==> r.Ok? && r.value.Map? && KeySet(EntriesOf(v), node, x, r.value.entries)
  {
    match Decode(ZeroLike(x), x)
    case Into(w) => Ok(Map(EntriesOf(v)[node := w]))
    case NilInterface => Ok(Map(EntriesOf(v) - {node}))  // SetMapIndex with the zero Value
    case Mismatch => Panic
  }

  /** `replace` on a struct, and `add` on one except at a nil pointer field:
      the field `bestMatch` resolves gets the value decoded into a fresh value
      of the field's type. */
  function SetField(node: string, x: Value, fs: seq<Field>): (r: Outcome)
    ensures Resolve(node, fs).None? ==> r == Err(IncorrectIndex)
    ensures Resolve(node, fs).Some? ==>
              r.Ok? && r.value.Struct? && FieldSet(fs, Resolve(node, fs).value, x, r.value.fields)
  {
    match Resolve(node, fs)
    case None => Err(IncorrectIndex)
    case Some(i) => Ok(Struct(fs[i := fs[i].(val := x)]))
  }

  /** `add` on a struct: a nil pointer field gets a fresh target of its
      element type, and the value is decoded into that target. JSON `null`
      leaves the target's zero value, so the field is no longer nil; any
      other value is written as `replace` writes it. */
  function AddToField(node: string, x: Value, fs: seq<Field>, zeroOf: TypeId -> Value): (r: Outcome)
    ensures Resolve(node, fs).None? ==> r == Err(IncorrectIndex)
    ensures Resolve(node, fs).Some? ==>
              var f := fs[Resolve(node, fs).value].val;
              && (f.Ref? && f.target.None? && IsNull(x) ==>
                    && r.Ok? && r.value.Struct?
                    && FieldSet(fs, Resolve(node, fs).value, Ref(f.elem, Some(zeroOf(f.elem))), r.value.fields))
              && (!(f.Ref? && f.target.None? && IsNull(x)) ==> r == SetField(node, x, fs))
  {
    match Resolve(node, fs)
    case None => Err(IncorrectIndex)
    case Some(i) =>
      var f := fs[i].val;
      if f.Ref? && f.target.None? && IsNull(x) then
        Ok(Struct(fs[i := fs[i].(val := Ref(f.elem, Some(zeroOf(f.elem))))]))
      else SetField(node, x, fs)
  }

  /** `add`, by the kind of the value the pointer points to. A pointer to a
      pointer makes reflection take the address of a non-addressable value;
      other kinds are left alone. */
  function Add(node: string, x: Value, v: Value, zeroOf: TypeId -> Value): (r: Outcome)
    ensures v.Ref? ==> r.Panic?
    ensures (v.Prim? || v.Opaque?) ==> r == Ok(v)
    ensures r.Ok? ==> SameShape(v, r.value)
  {
    match v
    case Slice(es) => AddToSlice(node, x, es)
    case NilMap => AddToMap(node, x, v)
    case Map(_) => AddToMap(node, x, v)
    case Struct(fs) => AddToField(node, x, fs, zeroOf)
    case Ref(_, _) => Panic
    case _ => Ok(v)
  }

  // ----- replace (encode.go:283-339) -----

  /** `replace` on a slice: decodes into the element there and overwrites
      it; an index past the end is refused, while the index equal to the
      length reaches `v.Index`. */
  function ReplaceInSlice(node: string, x: Value, es: seq<Value>): (r: Outcome)
    ensures Atoi(node).None? ==> r == Err(IncorrectIndex)
    ensures Atoi(node).Some? && Atoi(node).value > |es| ==> r == Err(IncorrectIndex)
    ensures Atoi(node).Some? && 0 <= Atoi(node).value < |es| ==>
              var d := Decode(es[Atoi(node).value], x);
              && (d.Into? ==> r.Ok? && r.value.Slice? && Overwritten(es, Atoi(node).value, d.value, r.value.elems))
              && (!d.Into? ==> r.Panic?)
    ensures Atoi(node).Some? && (Atoi(node).value < 0 || Atoi(node).value == |es|) ==> r.Panic?
  {
    match Atoi(node)
    case None => Err(IncorrectIndex)
    case Some(pos) =>
      if pos > |es| then Err(IncorrectIndex)
      else if pos < 0 || pos == |es| then Panic
      else
        match Decode(es[pos], x)
        case Into(w) => Ok(Slice(es[pos := w]))
        case _ => Panic  // `child.Set` of a nil interface or a mismatched value
  }

  /** `replace` on a map: only an existing key can be replaced; JSON `null`
      deletes it. */
  function ReplaceInMap(node: string, x: Value, v: Value): (r: Outcome)
    requires v.Map? || v.NilMap?
    ensures node !in EntriesOf(v) ==> r == Err(MapElementNotFound)
    ensures node in EntriesOf(v) ==>
              var d := Decode(v.entries[node], x);
              && (d.Into? ==>
                    && r.Ok? && r.value.Map? && r.value.entries.Keys == v.entries.Keys
                    && KeySet(v.entries, node, d.value, r.value.entries))
              && (d.NilInterface? ==> r.Ok? && r.value.Map? && r.value.entries == v.entries - {node})
              && (d.Mismatch? ==> r.Panic?)
  {
    var m := EntriesOf(v);
    if node !in m then Err(MapElementNotFound)
    else
      match Decode(m[node], x)
      case Into(w) => Ok(Map(m[node := w]))
      case NilInterface => Ok(Map(m - {node}))
      case Mismatch => Panic
  }

  function Replace(node: string, x: Value, v: Value): (r: Outcome)
    ensures v.Ref? ==> r == Err(NotImplemented)
    ensures (v.Prim? || v.Opaque?) ==> r == Ok(v)
    ensures r.Ok? ==> SameShape(v, r.value)
  {
    match v
    case Slice(es) => ReplaceInSlice(node, x, es)
    case NilMap => ReplaceInMap(node, x, v)
    case Map(_) => ReplaceInMap(node, x, v)
    case Struct(fs) => SetField(node, x, fs)
    case Ref(_, _) => Err(NotImplemented)
    case _ => Ok(v)
  }

  // ----- remove (encode.go:341-373) -----

  /** `remove` on a slice: excises one element; an index outside the slice
      makes `v.Slice` panic. */
  function RemoveFromSlice(node: string, es: seq<Value>): (r: Outcome)
    ensures Atoi(node).None? ==> r == Err(IncorrectIndex)
    ensures Atoi(node).Some? && 0 <= Atoi(node).value < |es| ==>
              r.Ok? && r.value.Slice? && Excised(es, Atoi(node).value, r.value.elems)
    ensures Atoi(node).Some? && !(0 <= Atoi(node).value < |es|) ==> r.Panic?
  {
    match Atoi(node)
    case None => Err(IncorrectIndex)
    case Some(pos) =>
      if pos < 0 || pos >= |es| then Panic
      else
        var after := es[..pos] + es[pos + 1..];
        assert after[..pos] == es[..pos];
        assert after[pos..] == es[pos + 1..];
        Ok(Slice(after))
  }

  /** `remove` on a map keeps the key and stores the zero value of its type;
      an absent key leaves `child.Type()` nothing to work on. */
  function RemoveFromMap(node: string, v: Value): (r: Outcome)
    requires v.Map? || v.NilMap?
    ensures node !in EntriesOf(v) ==> r.Panic?
    ensures node in EntriesOf(v) ==>
              && r.Ok? && r.value.Map? && r.value.entries.Keys == v.entries.Keys
              && KeySet(v.entries, node, ZeroLike(v.entries[node]), r.value.entries)
  {
    var m := EntriesOf(v);
    if node in m then Ok(Map(m[node := ZeroLike(m[node])])) else Panic
  }

  /** `remove` on a struct finds the field by `strings.Title(node)`, not by
      `bestMatch`, and resets it to its zero value. */
  function RemoveFromStruct(node: string, fs: seq<Field>): (r: Outcome)
    ensures FieldIndex(fs, Title(node)).None? ==> r.Panic?
    ensures FieldIndex(fs, Title(node)).Some? ==>
              var i := FieldIndex(fs, Title(node)).value;
              r.Ok? && r.value.Struct? && FieldSet(fs, i, ZeroLike(fs[i].val), r.value.fields)
  {
    match FieldIndex(fs, Title(node))
    case None => Panic
    case Some(i) => Ok(Struct(fs[i := fs[i].(val := ZeroLike(fs[i].val))]))
  }

  function Remove(node: string, v: Value): (r: Outcome)
    ensures v.Ref? ==> r == Err(NotImplemented)
    ensures (v.Prim? || v.Opaque?) ==> r == Ok(v)
    ensures r.Ok? ==> SameShape(v, r.value)
  {
    match v
    case Slice(es) => RemoveFromSlice(node, es)
    case NilMap => RemoveFromMap(node, v)
    case Map(_) => RemoveFromMap(node, v)
    case Struct(fs) => RemoveFromStruct(node, fs)
    case Ref(_, _) => Err(NotImplemented)
    case _ => Ok(v)
  }

  // ----- test (encode.go:375-432) -----

  /** What `test` finds at `node`: the value it compares against, a nil
      pointer element (which passes without comparison), a non-nil pointer
      held by a map key or a field (into whose target the patch value is
      decoded), an error, or a panic. */
  datatype Probe = At(current: Value) | NilElement | Pointer(elem: TypeId) | Fails(error: Error) | Crashes

  /** A slice element as `test` sees it: pointers are followed, and a nil
      one ends the test. */
  function FoundInSlice(c: Value): (l: Probe)
    ensures !c.Ref? ==> l == At(c)
    ensures c.Ref? && c.target.None? ==> l == NilElement
    ensures c.Ref? && c.target.Some? ==> l == At(c.target.value)
  {
    match c
    case Ref(_, None) => NilElement
    case Ref(_, Some(q)) => At(q)
    case _ => At(c)
  }

  /** A map entry or a field as `test` sees it: JSON is decoded through a
      non-nil pointer, while a nil one leaves reflection a nil interface to
      convert. */
  function Found(c: Value): (l: Probe)
    ensures !c.Ref? ==> l == At(c)
    ensures c.Ref? && c.target.None? ==> l == Crashes
    ensures c.Ref? && c.target.Some? ==> l == Pointer(c.elem)
  {
    match c
    case Ref(_, None) => Crashes
    case Ref(t, Some(_)) => Pointer(t)
    case _ => At(c)
  }

  /** The lookup half of `test`. */
  function Locate(node: string, v: Value): (l: Probe)
    ensures v.Slice? && Atoi(node).None? ==> l == Fails(IncorrectIndex)
    ensures v.Slice? && Atoi(node).Some? && !(0 <= Atoi(node).value < |v.elems|) ==> l.Crashes?
    ensures v.Slice? && Atoi(node).Some? && 0 <= Atoi(node).value < |v.elems| ==>
              l == FoundInSlice(v.elems[Atoi(node).value])
    ensures v.Map? && node in v.entries ==> l == Found(v.entries[node])
    ensures (v.NilMap? || (v.Map? && node !in v.entries)) ==> l.Crashes?
    ensures v.Struct? ==>
              (if Resolve(node, v.fields).None? then l == Fails(IncorrectIndex)
               else l == Found(v.fields[Resolve(node, v.fields).value].val))
    ensures v.Prim? ==> l == At(v)
    ensures v.Ref? ==> l == Fails(NotImplemented)
    ensures v.Opaque? ==> l == Fails(Unsupported(node))
    ensures l.Pointer? ==> (v.Map? && node in v.entries) || (v.Struct? && Resolve(node, v.fields).Some?)
  {
    match v
    case Slice(es) =>
      (match Atoi(node)
       case None => Fails(IncorrectIndex)
       case Some(pos) =>
         if pos < 0 || pos >= |es| then Crashes else FoundInSlice(es[pos]))
    case NilMap => Crashes
    case Map(m) => if node in m then Found(m[node]) else Crashes
    case Struct(fs) =>
      (match Resolve(node, fs)
       case None => Fails(IncorrectIndex)
       case Some(i) => Found(fs[i].val))
    case Ref(_, _) => Fails(NotImplemented)
    case Opaque(_) => Fails(Unsupported(node))
    case Prim(_) => At(v)
  }

  /** `test`: passes exactly when the value found equals the patch value, and
      then changes nothing; JSON `null` leaves a nil interface, which
      `Convert` panics on. At a non-nil pointer the patch value is decoded
      into the pointer's target, which the comparison of the pointer with
      itself then accepts. */
  function Test(node: string, x: Value, v: Value): (r: Outcome)
    ensures Locate(node, v).At? && IsNull(x) ==> r.Panic?
    ensures Locate(node, v).At? && !IsNull(x) ==>
              if x == Locate(node, v).current then r == Ok(v) else r == Err(NotEqual)
    ensures Locate(node, v).NilElement? ==> r == Ok(v)
    ensures Locate(node, v).Fails? ==> r == Err(Locate(node, v).error)
    ensures Locate(node, v).Crashes? ==> r.Panic?
    ensures Locate(node, v).Pointer? && !(x.Ref? && x.target.Some?) ==> r.Panic?
    ensures Locate(node, v).Pointer? && x.Ref? && x.target.Some? && v.Map? ==>
              r.Ok? && r.value.Map? && r.value.entries.Keys == v.entries.Keys
              && KeySet(v.entries, node, Ref(Locate(node, v).elem, x.target), r.value.entries)
    ensures Locate(node, v).Pointer? && x.Ref? && x.target.Some? && v.Struct? ==>
              r.Ok? && r.value.Struct?
              && FieldSet(v.fields, Resolve(node, v.fields).value, Ref(Locate(node, v).elem, x.target), r.value.fields)
    ensures r.Ok? && !Locate(node, v).Pointer? ==> r.value == v
    ensures r.Ok? ==> SameShape(v, r.value)
  {
    match Locate(node, v)
    case At(current) =>
      if IsNull(x) then Panic  // `Convert` of a nil interface
      else if x == current then Ok(v) else Err(NotEqual)
    case NilElement => Ok(v)
    case Pointer(t) =>
      if !(x.Ref? && x.target.Some?) then Panic  // JSON null leaves a nil interface to Convert
      else if v.Map? then Ok(Map(v.entries[node := Ref(t, x.target)]))
      else
        var i := Resolve(node, v.fields).value;
        Ok(Struct(v.fields[i := v.fields[i].(val := Ref(t, x.target))]))
    case Fails(e) => Err(e)
    case Crashes => Panic
  }

  // ----- applyNode (encode.go:176-192) -----

  /** Operations that never write: `copy`, `move` and unknown ones. */
  predicate ReadOnly(op: string)
  {
    op != "add" && op != "replace" && op != "remove" && op != "test"
  }

  function ApplyNode(node: string, p: Patch, v: Value, zeroOf: TypeId -> Value): (r: Outcome)
    ensures p.op == "copy" || p.op == "move" ==> r == Err(NotImplemented)
    ensures ReadOnly(p.op) && p.op != "copy" && p.op != "move" ==> r == Ok(v)
    ensures ReadOnly(p.op) && r.Ok? ==> r.value == v
    ensures p.op == "test" && r.Ok? && !Locate(node, v).Pointer? ==> r.value == v
    ensures r.Ok? ==> SameShape(v, r.value)
  {
    match p.op
    case "add" => Add(node, p.value, v, zeroOf)
    case "replace" => Replace(node, p.value, v)
    case "remove" => Remove(node, v)
    case "test" => Test(node, p.value, v)
    case "copy" => Err(NotImplemented)
    case "move" => Err(NotImplemented)
    case _ => Ok(v)
  }

  // ----- rapply and findNode (encode.go:81-148) -----

  /** `w` is `v` except that nil pointers of `v` may have been allocated (as
      the zero value `zeroOf` gives for their element type) and grown the
      same way inside. */
  predicate Grown(v: Value, w: Value, zeroOf: TypeId -> Value)
    decreases w
  {
    || v == w
    || match w
       case Slice(ws) =>
         && v.Slice? && |v.elems| == |ws|
         && forall i | 0 <= i < |ws| :: Grown(v.elems[i], ws[i], zeroOf)
       case Map(wm) =>
         && v.Map? && v.entries.Keys == wm.Keys
         && forall k | k in wm :: Grown(v.entries[k], wm[k], zeroOf)
       case Struct(wfs) =>
         && v.Struct? && |v.fields| == |wfs|
         && forall i | 0 <= i < |wfs| ::
              v.fields[i].(val := wfs[i].val) == wfs[i] && Grown(v.fields[i].val, wfs[i].val, zeroOf)
       case Ref(t, Some(x)) =>
         && v.Ref? && v.elem == t
         && Grown(if v.target.None? then zeroOf(t) else v.target.value, x, zeroOf)
       case _ => false
  }

  /** `rapply`: the path (already trimmed of outer `/`) is cut at its first
      `/`; a single segment is handed to `applyNode`, otherwise the walk goes
      on below the first segment. */
  function Rapply(path: string, p: Patch, v: Value, zeroOf: TypeId -> Value): (r: Outcome)
    ensures '/' !in path ==> r == ApplyNode(path, p, v, zeroOf)
    ensures r.Ok? ==> SameShape(v, r.value)
    decreases |path|, 0
  {
    var args := SplitN2(path, '/');
    if |args| == 2 then FindNode(args[0], args[1], p, v, zeroOf)
    else ApplyNode(args[0], p, v, zeroOf)
  }

  /** Continues the walk into `child`. A pointer is followed to its target, a
      nil one after allocating a zero value for it (encode.go:127-134); any
      other value is walked through its address (encode.go:143-144). */
  function Descend(node: string, p: Patch, child: Value, zeroOf: TypeId -> Value): (r: Outcome)
    ensures child.Ref? && r.Ok? ==> r.value.Ref? && r.value.elem == child.elem && r.value.target.Some?
    decreases |node|, 1
  {
    match child
    case Ref(t, target) =>
      var pointee := if target.None? then zeroOf(t) else target.value;
      (match Rapply(node, p, pointee, zeroOf)
       case Ok(w) => Ok(Ref(t, Some(w)))
       case other => other)
    case _ => Rapply(node, p, child, zeroOf)
  }

  /** `findNode`: resolves the segment `root` in `v` and walks on with the
      rest of the path, `node`. */
  function FindNode(root: string, node: string, p: Patch, v: Value, zeroOf: TypeId -> Value): (r: Outcome)
    ensures v.Slice? && (Atoi(root).None? || Atoi(root).value >= |v.elems|) ==> r == Err(IncorrectIndex)
    ensures v.Struct? && BestMatchOf(root, v.fields) == "" ==> r == Err(IncorrectIndex)
    ensures v.Prim? ==> r == Err(PrimitiveHasNoFields)
    ensures v.Opaque? ==> r == Err(Unsupported(root))
    ensures v.Map? && root in v.entries && !v.entries[root].Ref? ==> r == Err(Unsupported(root))
    ensures v.NilMap? || (v.Map? && root !in v.entries) ==> r.Panic?
    ensures r.Ok? ==> SameShape(v, r.value)
    decreases |node|, 2
  {
    match v
    case Slice(es) =>
      (match Atoi(root)
       case None => Err(IncorrectIndex)
       case Some(pos) =>
         if pos >= |es| then Err(IncorrectIndex)
         else if pos < 0 then Panic
         else match Descend(node, p, es[pos], zeroOf)
           case Ok(c) => Ok(Slice(es[pos := c]))
           case other => other)
    case NilMap => Panic
    case Map(m) =>
      if root !in m then Panic
      else
        (match m[root]
         case Ref(t, None) => Panic  // a map element cannot be set in place
         case Ref(t, Some(q)) =>
           (match Rapply(node, p, q, zeroOf)
            case Ok(w) => Ok(Map(m[root := Ref(t, Some(w))]))
            case other => other)
         case _ => Err(Unsupported(root)))  // a map element has no address
    case Struct(fs) =>
      (match Resolve(root, fs)
       case None => Err(IncorrectIndex)
       case Some(i) =>
         match Descend(node, p, fs[i].val, zeroOf)
         case Ok(c) => Ok(Struct(fs[i := fs[i].(val := c)]))
         case other => other)
    case Ref(_, None) => Panic
    case Ref(t, Some(q)) =>
      (match Descend(node, p, q, zeroOf)
       case Ok(c) => Ok(Ref(t, Some(c)))
       case other => other)
    case Opaque(_) => Err(Unsupported(root))
    case Prim(_) => Err(PrimitiveHasNoFields)
  }

  // ----- Apply (encode.go:44-79) -----

  /** One patch, its path trimmed of surrounding `/` (encode.go:70-71). */
  function Step(w: Value, p: Patch, zeroOf: TypeId -> Value): Outcome
  {
    Rapply(Trim(p.path, '/'), p, w, zeroOf)
  }

  /** The patches in order on the working copy, stopping at the first that
      does not succeed. */
  function RunPatches(w: Value, ps: seq<Patch>, zeroOf: TypeId -> Value): (r: Outcome)
    ensures ps == [] ==> r == Ok(w)
    decreases |ps|
  {
    if ps == [] then Ok(w)
    else
      match Step(w, ps[0], zeroOf)
      case Ok(next) => RunPatches(next, ps[1..], zeroOf)
      case other => other
  }

  /** What `Apply` computes for the value its pointer points to: the deep
      copy, then every patch on the copy. */
  function Transaction(v: Value, ps: seq<Patch>, zeroOf: TypeId -> Value): Outcome
  {
    match DeepSpec.CopyOf(v)
    case Copied(c) => RunPatches(c, ps, zeroOf)
    case Unsupported => Err(CouldNotCopy)
    case Panics => Panic
  }

  /** The pointer passed to `Apply`, holding the value it points to. */
  class Target {
    var val: Value

    constructor(v: Value)
      ensures val == v
    {
      val := v;
    }
  }

  /** `Apply`: a nil target is refused; otherwise every patch runs on a deep
      copy, and the target is overwritten only when all of them succeed. */
  method Apply(ps: seq<Patch>, x: Target?, zeroOf: TypeId -> Value) returns (err: Option<Error>)
    requires x != null ==> !Transaction(x.val, ps, zeroOf).Panic?
    modifies x
    ensures x == null ==> err == Some(NonPointer)
    ensures x != null && Transaction(old(x.val), ps, zeroOf).Ok? ==>
              err.None? && x.val == Transaction(old(x.val), ps, zeroOf).value
    ensures x != null && Transaction(old(x.val), ps, zeroOf).Err? ==>
              err == Some(Transaction(old(x.val), ps, zeroOf).error) && x.val == old(x.val)
  {
    if x == null {
      return Some(NonPointer);
    }
    var copy := DeepSpec.CopyOf(x.val);
    if !copy.Copied? {
      return Some(CouldNotCopy);
    }
    var w := copy.value;
    for i := 0 to |ps|
      invariant x.val == old(x.val)
      invariant RunPatches(w, ps[i..], zeroOf) == RunPatches(copy.value, ps, zeroOf)
    {
      assert ps[i..][0] == ps[i] && ps[i..][1..] == ps[i + 1..];
      var o := Step(w, ps[i], zeroOf);
      if !o.Ok? {
        return Some(o.error);
      }
      w := o.value;
    }
    x.val := w;
    return None;
  }
}
