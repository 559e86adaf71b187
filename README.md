# jsonpatch, modelled in Dafny

A model of the two core pieces of the Go package `jsonpatch`.

- The patch applier (`encode.go`). `Apply` takes a pointer and an RFC 6902 patch document. It deep-copies the value the pointer points to, then runs every operation on the copy in document order. It writes the copy back only if every operation succeeds.
  - `rapply` cuts the path at its first `/`.
  - `findNode` walks one segment into a slice, map, struct or pointer. It allocates nil pointers it meets on the way.
  - `applyNode` dispatches `add`, `replace`, `remove` and `test`, and refuses `copy` and `move`.
  - `bestMatch` resolves a segment to a struct field by its name, its `json` tag, or its name with `-` and `_` stripped and case folded.
- The deep copier (`deep/deepcopy.go`). `Copy` copies what one pointer points to into what another points to. `rcopy`, `copyArray`, `copyMap`, `copyStruct` and `copyPrimitives` handle the individual kinds.

How Go values are modelled:

- `Values.Value` is the model of a Go value, in the terms reflection gives:
  - primitives, slices, nil and non-nil maps with string keys;
  - structs as their field list, each field with its name, `json` tag, embedding flag and value;
  - pointers as `Ref(elem, target)`, where `elem` names the element type;
  - kinds neither component supports (channels, functions, interfaces, unsafe pointers) as `Opaque`.
- `reflect.New` of an element type is the parameter `zeroOf`, which gives the zero value of a type.

The two cores take different forms:

- The applier is modelled on values (module `JsonPatch`).
  - Each operation is a function that returns `Ok(updated value)`, `Err(error)` or `Panic`.
  - `Panic` marks the places where Go's reflection aborts the program: an index out of range, a nil map lookup, a missing field.
  - `Apply` is a method that takes an object of the class `Target`, which stands for the Go pointer. It loops over the patches as the source does, and it requires that the run does not reach a panic.
- The deep copier is modelled on the heap (module `Deep`).
  - Each pointer target is a `Heap.Cell` object.
  - Each copy method allocates fresh cells.
  - Each copy method is proved to build what `DeepSpec.CopyOf` says the copy is.
  - When the source holds no pointer that the Go code shares rather than re-allocates, the copy is proved to reach only the cells it allocated. So it shares no pointer target with its source.

Modules:

- `Values`: the value model.
- `GoStrings`: the `strings` and `strconv` functions the applier calls.
- `FieldMatch`: `bestMatch`.
- `JsonPatch`: the applier.
- `PatchLaws`: laws relating the applier's operations to one another.
- `PatchScenarios`: whole patch documents taken from `encode_test.go`.
- `DeepSpec`: the copy on values.
- `Heap`: heap values, cells, and the abstraction `Abs` from heap to values.
- `CopySteps`: the loop invariants of the copier and the steps between them.
- `Deep`: the copier's methods.

Quirks of the code that the model keeps:

- `add` at index `len` of a slice does not append, although section 4.1 of RFC 6902 lets an index equal to the array's length append. `v.Index(pos)` panics first (encode.go:223).
- `replace` at index `len` panics rather than failing with `ErrIncorrectIndex`. The guard is `pos > len` (encode.go:294).
- Field order beats match kind in `bestMatch`. An earlier field that matches only after normalisation wins over a later field whose tag matches exactly (encode.go:154-171).
- `copyMap` drops entries that hold a nil pointer, and stores every non-pointer entry as it is, without copying it (deep/deepcopy.go:135-150).
- `copyArray` refuses a slice that holds a nil pointer (deep/deepcopy.go:97-101): `rcopy` finds no value behind it and fails with `ErrUnsupported` (deep/deepcopy.go:67-69).
- `remove` on a map keeps the key and stores the zero value (encode.go:359).
- `add` at an index holding a non-nil pointer decodes the value into that pointer's target and then inserts the same pointer, so the slice holds it at both indices (encode.go:223-231).
- `add` and `replace` of JSON `null` at a map key delete the key, since `SetMapIndex` is given the zero `Value` (encode.go:244, 316).
- `add` of JSON `null` at a nil pointer field leaves the field pointing at a zero value of its element type, while `replace` of `null` makes a pointer field nil (encode.go:252-259, 324-330).
- `copyStruct` judges a field private by the first byte of its name, read as a Latin-1 character (deep/deepcopy.go:187). A name starting with a character of three or more UTF-8 bytes, such as `世`, is skipped as private.
- `test` at a map key or struct field that holds a non-nil pointer decodes the patch value into the pointer's target and then compares the pointer with itself, so it passes and writes the value (encode.go:395-431).

## Model

| member | source | states |
|---|---|---|
| JsonPatch.Apply | encode.go:48-79 | A nil pointer yields `ErrNonPointer`. Otherwise, when the copy and every patch succeed, the pointer's value becomes the patched copy and no error is returned. When anything fails, that error is returned and the model's value is left as it was. The model does not capture the storage Go's copy shares with the original (see Left out). |
| JsonPatch.Transaction | encode.go:60-75 | The copy, then the patches: a copy that fails gives `ErrCouldNotCopy`, one that panics panics, and otherwise the run on the copy decides. |
| JsonPatch.Step | encode.go:70-71 | One patch runs `rapply` on its path trimmed of `/`. |
| JsonPatch.RunPatches | encode.go:69-75 | An empty patch list leaves the working copy as it is. |
| PatchLaws.RunPatchesAppend | encode.go:69-75 | Running `a + b` is running `a`, then `b` on its result. An error or panic in `a` ends the run. |
| JsonPatch.Rapply | encode.go:81-87 | A path without `/` goes straight to `applyNode`. A successful walk keeps the root's Go type. |
| PatchScenarios.RapplySplits | encode.go:81-87 | A path `seg/rest` with `/` not in `seg` is handed to `findNode(seg, rest)`. |
| JsonPatch.FindNode | encode.go:89-148 | These cases fail with `ErrIncorrectIndex`: a slice index that does not parse or is at least the length, and a struct segment that no field answers to. A primitive fails with "primitive types cannot have fields". An unsupported kind, or a map element that is not a pointer (it has no address), fails with `ErrUnsupported{root}`. A nil map, or a missing map key, panics. Success keeps the value's Go type. |
| JsonPatch.Descend | encode.go:126-145 | Descending into a pointer yields a pointer of the same element type with a target. A nil pointer gets one allocated. |
| PatchLaws.DescendWalks | encode.go:126-145 | Any value other than a pointer is walked in place. A pointer is followed to its target, and a nil one to the zero value of its element type. The walk succeeds exactly when the walk below does, and the pointer then targets the result. A failure below is passed on. |
| PatchLaws.FindNodeInElem | encode.go:98-106 | A negative slice index panics. At an index inside the slice, the walk succeeds exactly when the walk into that element does. Only that element changes, to the result. A failure below is passed on. |
| PatchLaws.FindNodeAtKey | encode.go:107-134 | A map key holding a nil pointer panics. A key holding a non-nil pointer is walked through into the target. The key then points at the result, and every other entry is kept. |
| PatchLaws.FindNodeInField | encode.go:109-145 | Only the field `bestMatch` resolves changes, to the result of the walk into it. The walk succeeds exactly when that walk does. |
| PatchLaws.FindNodeThroughPointer | encode.go:90-118 | A pointer to a nil pointer panics. A pointer to a non-nil pointer is followed without looking at the segment. |
| PatchLaws.NilFieldAllocated | encode.go:127-133 | A nil pointer field on the path is allocated as the zero value of its element type, the walk goes on inside it, and the field ends up pointing at the result. |
| PatchScenarios.WalkPlainField | encode.go:110-116 | Below a struct field that is not a pointer, the walk goes on in that field, and only that field changes. |
| PatchScenarios.FindNodeInNilField | encode.go:127-133 | Below a nil pointer field, the walk goes on in the zero value of its element type, and the field is set to point at the result. |
| PatchLaws.RapplyGrows | encode.go:81-148 | A `copy`, `move` or unknown operation changes nothing but the nil pointers met on the path, which it allocates. |
| PatchLaws.GrownNilFree | encode.go:127-133 | On a value with no nil pointer, such allocation changes nothing. |
| PatchLaws.ReadOnlyPreservesNilFree | encode.go:176-192 | A successful `copy`, `move` or unknown operation on a value with no nil pointer leaves it unchanged. |
| PatchLaws.FindNodeRefuses | encode.go:186-189 | A `copy` or `move` never succeeds below the first segment. |
| PatchLaws.CopyMoveRefused | encode.go:186-189 | A `copy` or `move` never succeeds, whatever its path. |
| JsonPatch.ApplyNode | encode.go:176-192 | `copy` and `move` fail with `ErrNotImplemented`. An unknown operation succeeds and changes nothing. A successful `test` changes nothing unless the place holds a non-nil pointer. A successful operation keeps the Go type. |
| FieldMatch.BestMatch | encode.go:152-174 | The loop over the fields returns exactly `BestMatchOf`: the name of the first field in declaration order that answers to the segment, or `""`. |
| FieldMatch.Matches | encode.go:156-171 | A field answers to a segment by its exact name, by a comma-separated piece of its `json` tag, or by its name lower-cased with `-` and `_` stripped. |
| FieldMatch.FirstMatch | encode.go:154-173 | The index found answers to the segment and no earlier field does. `None` means that no field answers. |
| FieldMatch.FieldIndex | encode.go:116 | `FieldByName` finds the first field declared with exactly that name, or none. |
| FieldMatch.BestMatchNamesAField | encode.go:112-116 | A non-empty `bestMatch` always names a field that `FieldByName` finds. |
| FieldMatch.ExactNameResolves | encode.go:156-158 | A segment equal to a declared field name resolves to that name unless an earlier field answers first. |
| FieldMatch.WholeTagMatches | encode.go:159-167 | A field answers to its whole `json` tag when the tag has no options. |
| FieldMatch.TagOptionResolves | encode.go:159-167 | Every comma-separated piece of the tag counts: `omitempty` resolves to a field tagged `name,omitempty`. |
| FieldMatch.LowerInitialMatches | encode.go:168-171 | A field answers to its name with the first letter lower-cased. |
| FieldMatch.UntaggedLengthMismatch | encode.go:168-171 | An untagged field never answers to a name of different length when neither contains `-` or `_`. |
| FieldMatch.FieldOrderBeatsMatchKind | encode.go:154-171 | An earlier field matched after normalisation wins over a later field matched by its tag. |
| FieldMatch.TagAliasResolves | encode_test.go:17-26 | `AwesomeName` resolves to field `A` tagged `json:"AwesomeName"`. |
| JsonPatch.Resolve | encode.go:112-116 | A field is found exactly when `bestMatch` is non-empty, and the field found carries the name `bestMatch` gives. |
| PatchLaws.ResolveByShape | encode.go:112-116 | Field resolution depends on names and tags only, never on field values. |
| PatchLaws.FirstMatchByShape | encode.go:152-174 | `bestMatch` depends on the type's fields only, never on their values. |
| PatchLaws.FieldIndexByShape | encode.go:116 | `FieldByName` depends on the type's fields only. |
| JsonPatch.AddToSlice | encode.go:204-233 | `-` appends a value that is neither `null` nor a pointer. A pointer is decoded into the new nil element, and `null` leaves a nil interface; both panic. A numeral for an existing index decodes into the element there. A non-pointer element yields the value itself, inserted before that element with every other element kept in order. A non-nil pointer element gets the value's target and then appears both at the index and after it. A nil pointer element, or `null`, panics, and so does a non-pointer value at a pointer element, which the model treats as ill-typed (see `Decode`). A segment that does not parse fails with `ErrIncorrectIndex`. Any other index panics. |
| JsonPatch.AddToMap | encode.go:235-244 | A nil map is created. A value that is neither `null` nor a pointer is bound to the key, and every other entry is kept. `null` deletes the key. A pointer value panics, as the element type's zero value it is decoded into is a nil pointer. |
| JsonPatch.SetField | encode.go:318-330 | `replace` on a struct: an unresolved segment fails with `ErrIncorrectIndex`. Otherwise only the resolved field's value changes, to the patch value. |
| JsonPatch.Add | encode.go:194-281 | A pointer-to-pointer target panics. A primitive or unsupported kind is left unchanged. Success keeps the Go type. |
| JsonPatch.AddToField | encode.go:246-266 | `add` on a struct: an unresolved segment fails with `ErrIncorrectIndex`. At a nil pointer field, JSON `null` allocates a zero value of the element type and points the field at it, changing no other field. Every other value is written as `replace` writes it. |
| JsonPatch.ReplaceInSlice | encode.go:289-304 | A segment that does not parse, or an index past the length, fails with `ErrIncorrectIndex`. At an existing index the value is decoded into the element, and only that element changes. A non-pointer element becomes the value. A non-nil pointer element keeps its type and gets the value's target. `null`, or a nil pointer element, panics; so does a non-pointer value at a pointer element, which the model treats as ill-typed (see `Decode`). Index `len`, or a negative index, panics. |
| JsonPatch.Decode | encode.go:223-231 | Decoding into an interface that holds an element: `null`, and only `null`, leaves a nil interface, and it never yields a `null` to write. A non-pointer element is replaced by the value. A non-nil pointer is decoded through: it keeps its type and gets the value's target. A nil pointer does not fit: JSON's own value replaces it, and writing that back panics. A non-pointer value meeting a non-nil pointer is ill-typed for that place; the model refuses it, where Go would decode through the pointer or report a decode error. |
| JsonPatch.ReplaceInMap | encode.go:306-317 | A missing key fails with "map element not found". An existing key is decoded into and rebound, with the key set unchanged and every other entry kept. `null` deletes the key. A nil pointer entry panics; so does a non-pointer value at a pointer entry, which the model treats as ill-typed (see `Decode`). |
| JsonPatch.Replace | encode.go:283-339 | A pointer target fails with `ErrNotImplemented`. Primitives are left unchanged. Success keeps the Go type. |
| JsonPatch.RemoveFromSlice | encode.go:346-355 | A segment that does not parse fails with `ErrIncorrectIndex`. An existing index is excised and the rest shift left. Any other index panics. |
| JsonPatch.RemoveFromMap | encode.go:357-360 | The key is kept and now holds the zero value of its type, with every other entry kept. A missing key, or a nil map, panics. |
| JsonPatch.RemoveFromStruct | encode.go:362-365 | The field is found by `FieldByName(strings.Title(node))`, not by `bestMatch`, and reset to its zero value. When no field has that name, it panics. |
| JsonPatch.Remove | encode.go:341-373 | A pointer target fails with `ErrNotImplemented`. Primitives are left unchanged. Success keeps the Go type. |
| JsonPatch.Locate | encode.go:375-415 | What `test` finds:<br>- a slice index that does not parse gives `ErrIncorrectIndex`, and one out of range panics;<br>- an element in range gives its value, the target of a non-nil pointer, or a nil element;<br>- an existing map key, or the struct field `bestMatch` resolves, gives its value; a non-nil pointer there is a place to decode into, and a nil one panics;<br>- a missing key panics, and an unresolved field gives `ErrIncorrectIndex`;<br>- a primitive gives itself;<br>- a pointer gives `ErrNotImplemented`, and an unsupported kind gives `ErrUnsupported`. |
| JsonPatch.FoundInSlice | encode.go:385-392 | A slice element that is a pointer is followed; a nil one ends the test. |
| JsonPatch.Found | encode.go:394-426 | A map entry or field holding a non-nil pointer is decoded into, and a nil pointer panics. |
| JsonPatch.Test | encode.go:375-432 | Where a value is found, `test` passes exactly when it equals the patch value, and then changes nothing; otherwise it fails with "elements are not equal". A `null` patch value there panics, as `Convert` gets a nil interface. A nil pointer slice element passes without comparison. At a key or field holding a non-nil pointer, a non-null value is written into the target and the test passes; a null one panics. Lookup errors and panics are passed on. Success keeps the Go type. |
| Values.ZeroLike | encode.go:357-365 | `reflect.Zero` keeps the kind and the struct layout. It turns maps into nil maps, pointers into nil pointers, and slices into empty slices, which stand for Go's nil slice. |
| PatchLaws.RemoveUndoesInsert | encode.go:219-233 | Removing at the index just inserted at restores the slice. The exception is a non-nil pointer element at that index: `add` decoded into it, so it keeps the inserted value's target. |
| PatchLaws.RemoveUndoesAppend | encode.go:206-218 | `-` succeeds exactly for a value that is neither `null` nor a pointer. Removing at the last index then restores the slice. |
| PatchLaws.InsertUndoesRemove | encode.go:346-355 | Inserting the removed element back at its index restores the slice when the element that moved into its place is not a pointer. A non-nil pointer there is decoded into, so both indices then hold that pointer with the removed element's target. A nil pointer there, or a `null` element, panics. |
| PatchLaws.ReplaceThenTest | encode.go:283-339 | After a successful `replace` on a slice, map or struct, a `test` of the same place passes and changes nothing. It is given the value written, or the target of a pointer written into a slice, since `test` follows slice pointers. It panics exactly when that value is `null`: the nil interface reaches `Convert`, or `null` deleted the map key. |
| PatchLaws.AddThenTest | encode.go:194-281 | After a successful `add` on a map, a struct, or an index of a slice, a `test` of the same place, given the same value as after `replace`, passes and changes nothing. It panics exactly when that value is `null`. |
| PatchLaws.RemoveThenTestZero | encode.go:357-360 | After `remove` of a map key, `test` finds the zero value there and passes. A key that held a pointer or a map now holds nil, and `test` panics on it. |
| PatchScenarios.FieldStep | encode.go:69-148 | A patch at `/seg/rest`, on a struct whose field `seg` is not a pointer, applies `rest` inside that field and changes only that field. |
| PatchScenarios.AppendStep | encode_test.go:37 | `add` at `/phones/-` of a value that is neither `null` nor a pointer appends it to the slice in the resolved field. |
| PatchScenarios.InsertStep | encode_test.go:38 | `add` at `/phones/n` of a value that is not `null` inserts it before index `n` of the slice in the resolved field, when the element there is not a pointer. |
| PatchScenarios.AppendThenInsert | encode_test.go:37-38 | `-` then `1` on `[a]` yields `[a, y, x]`: the appended element ends up last (encode_test.go:57-62). The values are not `null` and the elements not pointers, as in the test's `[]string`. |
| PatchScenarios.RemoveKeepsKey | encode_test.go:168 | `remove` of `/m/a` keeps key `a` with the zero value, which the assertion at encode_test.go:189 accepts. |
| PatchScenarios.AddBelowNilPointer | encode_test.go:36 | `add` of `/child/name` on a nil `Child` allocates the child and sets its field (checked at encode_test.go:54). |
| PatchScenarios.FindNodeInPointerElem | encode.go:98-131 | Below a slice element holding a non-nil pointer, the walk goes on in the target. |
| PatchScenarios.ReplaceBelowElement | encode_test.go:83-102 | `replace` of `/0/name` on a slice of pointers to structs sets the field in the element's target. |
| PatchScenarios.TestAtField | encode_test.go:199-211 | `test` of `/name` on a field that is not a pointer passes, changing nothing, exactly when the field holds the value; a `null` value panics. |
| GoStrings.Trim | encode.go:70 | `strings.Trim` leaves the piece of the input that neither starts nor ends with the character, with nothing but that character before and after it. |
| GoStrings.SplitN2 | encode.go:82 | `strings.SplitN(s, "/", 2)` gives one or two pieces. The first has no `/`. Two pieces join back to `s` around the first `/`. |
| GoStrings.Split | encode.go:161 | `strings.Split` gives at least one piece, none containing the separator. |
| GoStrings.JoinSplit | encode.go:161 | Joining the pieces of `strings.Split` gives back the string. |
| GoStrings.SplitJoin | encode.go:161 | Splitting a join of pieces free of the separator gives back the pieces. |
| GoStrings.Atoi | encode.go:100 | Succeeds exactly when the text is one or more decimal digits, optionally after `+` or `-`, whose value fits in Go's 64-bit `int`. The number is the digits' value, negated after `-`. |
| GoStrings.AtoiItoa | encode.go:219 | Every index up to the 64-bit maximum reads back from its decimal numeral. |
| GoStrings.ToLower | encode.go:153 | Lower-cases every character and keeps the length. |
| GoStrings.StripHyphens | encode.go:153 | The hyphen regexp leaves no `-` or `_`, and keeps every other character. |
| GoStrings.StripHyphensAppend | encode.go:153 | Stripping a concatenation strips each part, so the kept characters stay in order. |
| GoStrings.StripHyphensChar | encode.go:153 | One character is dropped exactly when it is `-` or `_`. |
| GoStrings.StripHyphensPlain | encode.go:168 | A name without `-` or `_` is unchanged by it. |
| GoStrings.Title | encode.go:363 | `strings.Title` keeps the length and upper-cases the first letter. |
| GoStrings.TitleFrom | encode.go:363 | Upper-cases exactly the letters that follow a word separator, and keeps every other character. |
| Deep.Copy | deep/deepcopy.go:19-37 | A source that is not a pointer fails with `ErrNonPointer`. A nil source pointer then succeeds and changes nothing. Otherwise a destination that is not a pointer fails with `ErrNonPointer`. The destination must point to the source's element type. Otherwise the copy succeeds exactly when `CopyOf` says it can. On success the destination's target holds a value whose meaning is the copy, and that value reaches only new cells when the source shares none. A nil source map leaves the destination as it was. |
| Deep.Rcopy | deep/deepcopy.go:39-79 | Succeeds exactly when `CopyOf` of the source succeeds, and otherwise fails with `ErrUnsupported`. On success it builds, in fresh cells, a value that denotes `CopyOf` of the source. |
| Values.ExportedByFirstChar | deep/deepcopy.go:186-189 | A field is private exactly when its name starts with a lower-case ASCII letter or with a character of three or more UTF-8 bytes, whose lead byte reads as a Latin-1 lower-case letter. A two-byte initial such as `é` counts as exported. |
| Deep.CopyPrimitives | deep/deepcopy.go:219-228 | A scalar's copy is the scalar. |
| Deep.CopyArray | deep/deepcopy.go:81-117 | Same as `Rcopy`, for a slice. The loop keeps the copies of the elements visited so far. |
| Deep.CopyElemAt | deep/deepcopy.go:95-114 | Appends the copy of the next element. On failure, the whole slice is refused. |
| Deep.MapKeys | deep/deepcopy.go:130 | Lists every key of the map exactly once. |
| Deep.CopyMap | deep/deepcopy.go:119-162 | Same as `Rcopy`, for a map. A nil map stays nil. The loop keeps the entries of the keys visited so far. |
| Deep.CopyEntry | deep/deepcopy.go:133-159 | Handles one key. It skips a nil pointer entry, gives a pointer entry a fresh copy of its target, and stores any other entry as it is. On failure, the whole map is refused. |
| Deep.CopyStruct | deep/deepcopy.go:164-217 | Same as `Rcopy`, for a struct. The whole-struct assignment comes first. The loop keeps the fields visited so far. |
| Deep.CopyFieldAt | deep/deepcopy.go:190-214 | Copies one field that is not embedded, not private by the first byte of its name, and not a nil pointer. On failure, the whole struct is refused. |
| DeepSpec.CopyOf | deep/deepcopy.go:39-79 | A scalar and a nil map copy to themselves. An unsupported kind is refused. A nil pointer panics, as `rcopy` dereferences it. A successful copy has its source's kind, and a pointer's copy points to the same type. |
| DeepSpec.CopyElems | deep/deepcopy.go:94-115 | A slice's copy succeeds exactly when every element's does. Its copy has the same length, with each element copied. |
| DeepSpec.CopyEntries | deep/deepcopy.go:132-160 | A map's copy succeeds exactly when every entry that is not a nil pointer can be copied. Its keys are exactly those entries' keys, each holding its copy. |
| DeepSpec.CopyFields | deep/deepcopy.go:176-215 | A struct's copy succeeds exactly when every field's does. It has the same fields, each with its copied value. An embedded field, a field private by the first byte of its name, or a nil pointer field keeps the value the whole-struct assignment gave it. |
| DeepSpec.CopyIsFaithful | deep/deepcopy.go:15-18 | A successful copy of a value with no nil pointer map entry is structurally equal to the source. |
| DeepSpec.NilElementRefused | deep/deepcopy.go:94-101 | A slice holding a nil pointer cannot be copied. |
| DeepSpec.NilFreeNeverPanics | deep/deepcopy.go:39-79 | The copy never panics on a value without a nil pointer where `rcopy` would dereference one. |
| DeepSpec.CopyElemsFirstFailure | deep/deepcopy.go:94-115 | The first element that cannot be copied decides the slice's outcome. |
| DeepSpec.CopyFieldsFirstFailure | deep/deepcopy.go:181-215 | The first field that cannot be copied decides the struct's outcome. |
| DeepSpec.EntryRefused | deep/deepcopy.go:142-145 | One entry that is refused refuses the map, unless another entry panics. |
| DeepSpec.CopyElemsNoPanic | deep/deepcopy.go:94-115 | A slice's copy panics only if an element's does. |
| DeepSpec.CopyFieldsNoPanic | deep/deepcopy.go:181-215 | A struct's copy panics only if a field's does. |
| DeepSpec.EntryNoPanic | deep/deepcopy.go:132-160 | No entry of a map whose copy does not panic panics on its own. |

## Left out

- Decoding the patch document and each operation's value is not modelled. JSON decoding is an external library, and decode errors are not modelled. Each `Patch` carries one decoded value. Go decodes it into a fresh value of the field's own type for struct fields (encode.go:261-262, 325-326), and into a fresh value of the element type at a nil pointer field under `add` (encode.go:253-254). JSON `null` into a struct or scalar field leaves that fresh zero value; the model has no `null` of those types. For slice elements, map entries and `test` it decodes into an `interface{}` (encode.go:210-211, 224-225, 239-240, 298-299, 311-312, 416-418), which then holds JSON's own types, or the target of a non-nil pointer it already held.
- JsonPatch.AddToSlice, JsonPatch.AddToMap, JsonPatch.ReplaceInSlice, JsonPatch.ReplaceInMap, JsonPatch.Test: model JSON `null` and pointer elements as Go decodes them (`Decode`), but otherwise assume the decoded value already has the element's type. Only `test` converts numbers (encode.go:425-427). `add` and `replace` write JSON's own types, so `Set`, `Append` and `SetMapIndex` panic on an integer element type or when a JSON object or array meets a struct, slice or map element type. For the same reason, `test` panics on struct, slice and map values, where the model compares. A pointer to a pointer, as a slice element or map entry, is treated like any other pointer element.
- `test` converts a decoded float64 to the target's type before comparing. Floating point is not modelled, so numbers are integers and the comparison is plain equality.
- JsonPatch.Apply: a non-pointer argument (`ErrNonPointer` for a non-nil non-pointer) cannot be expressed, because `Target?` is always a pointer. The method requires that the copy and the patches do not reach a Go panic, instead of modelling the abort.
- JsonPatch.Apply: an error leaves the original unchanged only in the model. Go's copy shares maps, slices and pointer targets reached through embedded or private fields, because `copyStruct` assigns the whole struct first and skips those fields (deep/deepcopy.go:178-185). Patches can write through them before a later patch fails.
- JsonPatch.Apply: uses the copy on values (`DeepSpec.CopyOf`), not the heap methods of `Deep`. The heap methods are proved to build the same copy.
- The applier works on values, not in place. Two Go pointers reaching the same struct are not modelled as aliases inside the applier. The aliasing between source and copy is modelled in `Deep`.
- Fixed-size arrays are not modelled. The `reflect.Array` cases behave like slices except for allocation, and only slices are modelled.
- Interface-typed containers (`interface{}` fields and elements) are modelled as `Opaque`, the kind reflection does not navigate.
- Setting an unexported field through reflection panics in Go. This is not modelled, and field access does not check export.
- FieldMatch.FieldIndex, JsonPatch.RemoveFromStruct: promoted fields of embedded structs, which `FieldByName` also finds, are not modelled.
- `CanAddr` is not modelled. Every value the walk reaches is addressable, except a map element, which fails with `ErrUnsupported` as in encode.go:147.
- GoStrings.ToLower: ASCII case rules only. Unicode case mapping is not modelled.
- GoStrings.Title, GoStrings.TitleFrom: ASCII letters and the ASCII word separators only.
- The regular expression `[\-_]` is modelled by the function that drops those two characters.
- `add` on a pointer to a pointer (encode.go:268-278) takes the address of a non-addressable value. Go panics there, and the model says so.
- Map iteration order is not modelled. `MapKeys` lists the keys in an unspecified order. When two entries fail differently, `CopyOf` reports a panic if any entry would panic, whatever the order.
- Deep.Copy: says nothing about the destination when the copy fails. Go leaves the elements copied before the failure in place.
- Deep.Copy: requires the destination cell not to be a cell of the source, which Go does not demand.
- Deep.Copy: requires the destination to point to the source's element type. Go panics in `Set` when the types differ, and the model does not express that abort.
- Deep.Copy: a nil destination pointer would be dereferenced by `rcopy` and panic, so the destination is required to be non-nil.
- `ErrDifferentKinds` is never returned: both arguments have been checked to be pointers by then (deep/deepcopy.go:33-35).
- Cyclic structures are not modelled. `Closed` asks every chain of pointers to end.
- Slices, maps and their backing storage are values in the heap model. Only pointer targets are cells, so a slice shared between source and copy is not observable. `Unshared` requires pointers inside non-pointer map entries and inside embedded or private fields to be nil, because Go shares those.
- A pointer to a pointer as the target of `rcopy` (deep/deepcopy.go:57-65) is copied like any other pointer, one fresh cell per level.
