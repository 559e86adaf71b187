/** The values the patch applier works on: an explicit stand-in for the Go
    values that the original reaches through reflection. */
module Values {
  datatype Option<+T> = None | Some(value: T)

  /** Names a Go type. The model needs one only where reflection allocates a
      fresh zero value of a pointer's element type (`reflect.New`). */
  type TypeId = string

  /** Go's scalar kinds; numbers are integers (floats are not modelled). */
  datatype Scalar = Int(i: int) | Str(s: string) | Bool(b: bool)

  /** Kinds that neither the navigator nor the copier has a rule for. */
  datatype OpaqueKind = Invalid | Chan | Func | Interface | UnsafePointer

  /** A struct field: its declared name, the value of its `json` tag (`""` when
      it has none), whether it is embedded (anonymous), and its value. */
  datatype Field = Field(name: string, tag: string, embedded: bool, val: Value)

  datatype Value =
    | Prim(s: Scalar)
    | Slice(elems: seq<Value>)
    | NilMap
    | Map(entries: map<string, Value>)
    | Struct(fields: seq<Field>)
    | Ref(elem: TypeId, target: Option<Value>)  // a pointer; None is nil
    | Opaque(kind: OpaqueKind)

  /** The first byte of the UTF-8 encoding of `c`. */
  function Utf8Lead(c: char): (b: nat)
    ensures b < 0x100
    ensures (b < 0x80) == (c as int < 0x80) && (b < 0x80 ==> b == c as int)
  {
    var n := c as int;
    if n < 0x80 then n
    else if n < 0x800 then 0xC0 + n / 0x40
    else if n < 0x1_0000 then 0xE0 + n / 0x1000
    else 0xF0 + n / 0x4_0000
  }

  /** Whether upper-casing the one-rune string of the Latin-1 character
      numbered `b` changes it: the lower-case ASCII letters, the micro sign,
      and the Latin-1 lower-case letters from U+00E0 on except the division
      sign (U+00DF has no single-letter upper case). */
  predicate ChangesUnderUpper(b: nat)
  {
    ('a' as nat <= b <= 'z' as nat) || b == 0xB5 || (0xE0 <= b < 0x100 && b != 0xF7)
  }

  /** Go's rule in `copyStruct`: a field is private when upper-casing its first
      BYTE, read as a Latin-1 character, changes it. */
  predicate Exported(name: string)
  {
    name == [] || !ChangesUnderUpper(Utf8Lead(name[0]))
  }

  /** By characters: a field is private exactly when its name starts with a
      lower-case ASCII letter or with a character of three or more UTF-8
      bytes (a CJK ideograph, say), whose lead byte reads as a Latin-1
      lower-case letter. Two-byte characters, lower-case or not, count as
      exported. */
  lemma ExportedByFirstChar(name: string)
    ensures Exported(name) <==> name == [] || !('a' <= name[0] <= 'z' || name[0] as int >= 0x800)
  {
    if name != [] {
      var n := name[0] as int;
      if 0x80 <= n < 0x800 {
        assert 2 <= n / 0x40 < 0x20;
      } else if 0x800 <= n < 0x1_0000 {
        assert n / 0x1000 < 0x10;
      } else if 0x1_0000 <= n {
        assert n / 0x4_0000 <= 4;
      }
    }
  }

  /** `reflect.Zero` of the type of `v`: the same shape with every leaf reset,
      every pointer nil, every map nil and every slice empty (the model does
      not tell Go's nil slice from an empty one). */
  function ZeroLike(v: Value): (z: Value)
    ensures z.Prim? == v.Prim? && z.Slice? == v.Slice? && z.Struct? == v.Struct?
    ensures z.Ref? == v.Ref? && z.Opaque? == v.Opaque?
    ensures v.Slice? ==> z.elems == []
    ensures (v.NilMap? || v.Map?) <==> z.NilMap?
    ensures v.Ref? ==> z == Ref(v.elem, None)
    ensures v.Struct? ==> |z.fields| == |v.fields|
    ensures v.Struct? ==> forall i | 0 <= i < |v.fields| ::
              z.fields[i].name == v.fields[i].name && z.fields[i].tag == v.fields[i].tag
  {
    match v
    case Prim(Int(_)) => Prim(Int(0))
    case Prim(Str(_)) => Prim(Str(""))
    case Prim(Bool(_)) => Prim(Bool(false))
    case Slice(_) => Slice([])
    case NilMap => NilMap
    case Map(_) => NilMap
    case Struct(fs) => Struct(ZeroFields(fs))
    case Ref(t, _) => Ref(t, None)
    case Opaque(k) => Opaque(k)
  }

  function ZeroFields(fs: seq<Field>): (zs: seq<Field>)
    ensures |zs| == |fs|
    ensures forall i | 0 <= i < |fs| ::
              zs[i] == fs[i].(val := ZeroLike(fs[i].val))
  {
    if fs == [] then [] else [fs[0].(val := ZeroLike(fs[0].val))] + ZeroFields(fs[1..])
  }
}
