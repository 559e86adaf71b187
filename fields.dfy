/** Field-name resolution: which struct field a path segment names
    (`bestMatch` in encode.go). */
module FieldMatch {
  import opened Values
  import opened GoStrings

  /** The form the third rule compares: hyphens and underscores removed, then
      lower-cased. */
  function Normalize(s: string): string
  {
    ToLower(StripHyphens(s))
  }

  /** Field `f` answers to the segment `name` by one of the three rules: its
      declared name, one of the comma-separated pieces of its `json` tag, or
      equality after normalising both sides. */
  predicate Matches(f: Field, name: string)
  {
    || f.name == name
    || (f.tag != "" && name in Split(f.tag, ','))
    || Normalize(name) == Normalize(f.name)
  }

  /** The index of the first field, in declaration order, that answers to
      `name`. */
  function FirstMatch(name: string, fs: seq<Field>): (r: Option<nat>)
    ensures r.Some? ==> r.value < |fs| && Matches(fs[r.value], name)
    ensures r.Some? ==> forall j | 0 <= j < r.value :: !Matches(fs[j], name)
    ensures r.None? ==> forall j | 0 <= j < |fs| :: !Matches(fs[j], name)
  {
    if fs == [] then None
    else if Matches(fs[0], name) then Some(0)
    else match FirstMatch(name, fs[1..])
      case None => None
      case Some(i) => Some(i + 1)
  }

  /** What `bestMatch` returns: the name of the first field that answers to
      `name`, or `""` when none does. */
  function BestMatchOf(name: string, fs: seq<Field>): string
  {
    match FirstMatch(name, fs)
    case None => ""
    case Some(i) => fs[i].name
  }

  /** `reflect.Value.FieldByName`: the first field declared with exactly this
      name. */
  function FieldIndex(fs: seq<Field>, name: string): (r: Option<nat>)
    ensures r.Some? ==> r.value < |fs| && fs[r.value].name == name
    ensures r.Some? ==> forall j | 0 <= j < r.value :: fs[j].name != name
    ensures r.None? ==> forall j | 0 <= j < |fs| :: fs[j].name != name
  {
    if fs == [] then None
    else if fs[0].name == name then Some(0)
    else match FieldIndex(fs[1..], name)
      case None => None
      case Some(i) => Some(i + 1)
  }

  /** `bestMatch` as the source runs it: one pass over the fields in
      declaration order, trying the three rules on each field in turn. */
  method BestMatch(name: string, fs: seq<Field>) returns (r: string)
    ensures r == BestMatchOf(name, fs)
  {
    var key := ToLower(StripHyphens(name));
    for i := 0 to |fs|
      invariant forall j | 0 <= j < i :: !Matches(fs[j], name)
    {
      var field := fs[i];
      if field.name == name {
        return field.name;
      }
      var j := field.tag;
      if j != "" {
        var flags := Split(j, ',');
        for k := 0 to |flags|
          invariant forall m | 0 <= m < k :: flags[m] != name
        {
          if name == flags[k] {
            return field.name;
          }
        }
      }
      var lname := ToLower(StripHyphens(field.name));
      if key == lname {
        return field.name;
      }
    }
    return "";
  }

  /** The resolved field, if any, is a field whose name is the answer. */
  lemma BestMatchNamesAField(name: string, fs: seq<Field>)
    requires BestMatchOf(name, fs) != ""
    ensures FieldIndex(fs, BestMatchOf(name, fs)).Some?
  {
    var i := FirstMatch(name, fs).value;
    assert fs[i].name == BestMatchOf(name, fs);
  }

  /** The first field answering to `name` is the one `FirstMatch` finds. */
  lemma FirstMatchIs(name: string, fs: seq<Field>, i: nat)
    requires i < |fs| && Matches(fs[i], name)
    requires forall j | 0 <= j < i :: !Matches(fs[j], name)
    ensures FirstMatch(name, fs) == Some(i)
  {
  }

  lemma FieldIndexIs(fs: seq<Field>, name: string, i: nat)
    requires i < |fs| && fs[i].name == name
    requires forall j | 0 <= j < i :: fs[j].name != name
    ensures FieldIndex(fs, name) == Some(i)
  {
  }

  /** A segment equal to a field's declared name resolves to that field unless
      an earlier field already answers to it. */
  lemma ExactNameResolves(name: string, fs: seq<Field>, i: nat)
    requires i < |fs| && fs[i].name == name
    requires forall j | 0 <= j < i :: !Matches(fs[j], name)
    ensures BestMatchOf(name, fs) == name
  {
    var r := FirstMatch(name, fs);
    assert Matches(fs[i], name);
    assert r.Some? && r.value == i;
  }

  /** A tag without options names its field. */
  lemma WholeTagMatches(f: Field, name: string)
    requires f.tag == name && name != "" && ',' !in name
    ensures Matches(f, name)
  {
    assert Split(name, ',') == [name];
  }

  /** The alias test from the source's own tests: a field `A` tagged
      `json:"AwesomeName"` answers to the segment `AwesomeName`. */
  lemma TagAliasResolves()
    ensures BestMatchOf("AwesomeName", [Field("A", "AwesomeName", false, Prim(Str("")))]) == "A"
  {
    var f := Field("A", "AwesomeName", false, Prim(Str("")));
    assert ',' !in "AwesomeName";
    WholeTagMatches(f, "AwesomeName");
    assert FirstMatch("AwesomeName", [f]) == Some(0);
  }

  /** The usual JSON spelling of an exported Go field, its name with the first
      letter lower-cased, answers to the field. */
  lemma LowerInitialMatches(f: Field, name: string)
    requires |f.name| > 0 && '-' !in f.name && '_' !in f.name
    requires name == [LowerChar(f.name[0])] + f.name[1..]
    ensures Matches(f, name)
  {
    assert '-' !in name && '_' !in name by {
      assert forall i | 1 <= i < |name| :: name[i] == f.name[i];
    }
    StripHyphensPlain(f.name);
    StripHyphensPlain(name);
    assert ToLower(name) == ToLower(f.name);
  }

  /** An untagged field whose name, free of `-` and `_`, differs in length
      from a segment free of them does not answer to it. */
  lemma UntaggedLengthMismatch(f: Field, name: string)
    requires f.tag == "" && |f.name| != |name|
    requires '-' !in f.name && '_' !in f.name && '-' !in name && '_' !in name
    ensures !Matches(f, name)
  {
    StripHyphensPlain(f.name);
    StripHyphensPlain(name);
  }

  /** Field order beats match kind: a field matched only after normalisation
      wins over a later field whose tag names the segment exactly. */
  lemma FieldOrderBeatsMatchKind()
    ensures BestMatchOf("ab", [Field("A_B", "", false, Prim(Int(0))), Field("X", "ab", false, Prim(Int(0)))]) == "A_B"
  {
    assert StripHyphens("A_B") == "AB";
    assert Normalize("A_B") == "ab";
    assert StripHyphens("ab") == "ab";
    assert Normalize("ab") == "ab";
    assert Matches(Field("A_B", "", false, Prim(Int(0))), "ab");
  }

  /** Every piece of the tag counts, the options too: a field tagged
      `json:"name,omitempty"` answers to the segment `omitempty`. */
  lemma TagOptionResolves()
    ensures BestMatchOf("omitempty", [Field("Name", "name,omitempty", false, Prim(Str("")))]) == "Name"
  {
    var parts := ["name", "omitempty"];
    assert Join(parts, ',') == "name,omitempty" by {
      assert Join(parts[1..], ',') == "omitempty";
    }
    SplitJoin(parts, ',');
    assert "omitempty" in Split("name,omitempty", ',');
    assert Matches(Field("Name", "name,omitempty", false, Prim(Str(""))), "omitempty");
  }
}
