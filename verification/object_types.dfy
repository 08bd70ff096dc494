/** The expansion of structured argument and return types into pydantic
    class declarations (`process_object_field` and `process_object_type`
    in codex/develop/compile.py).  The set of type ids already emitted is
    threaded through explicitly: it goes into every call and comes back out
    of it, as the source's in-place `set.add` does.
 */
module ObjectTypes {
  import opened Basics
  import opened Text

  /** A field of a structured type.  `typeId` names a structured field
      type and `objType` is that type's record; a primitive field has no
      `typeId`. */
  datatype ObjectField = ObjectField(
    name: string,
    typeName: string,
    description: string,
    typeId: Option<string>,
    objType: Option<ObjectType>)

  /** A structured type's field list, `NoFields` when the record has none
      at all (the source's `Fields is None`). */
  datatype FieldList = NoFields | Fields(items: seq<ObjectField>)

  /** A structured type. */
  datatype ObjectType = ObjectType(id: string, name: string, description: string, fields: FieldList)

  /** The text one call produces and the set of emitted type ids after it. */
  datatype Emitted = Emitted(text: string, seen: set<string>)

  /** One field line of a class body: `    name: typeName  # description`. */
  function FieldLine(f: ObjectField): string
  {
    "    " + f.name + ": " + f.typeName + "  # " + f.description
  }

  function FieldLines(fs: seq<ObjectField>): (r: seq<string>)
    ensures |r| == |fs|
    ensures forall k :: 0 <= k < |fs| ==> r[k] == FieldLine(fs[k])
  {
    seq(|fs|, k requires 0 <= k < |fs| => FieldLine(fs[k]))
  }

  /** The declaration the template adds after the sub-type declarations:
      a blank line, the class header, the docstring, one line per field in
      field order, and a trailing indented line. */
  function ClassBlock(name: string, description: string, fs: seq<ObjectField>): string
  {
    "\n\nclass " + name + "(BaseModel):\n    \"\"\"\n    " + description + "\n    \"\"\"\n"
    + Join("\n", FieldLines(fs)) + "\n    "
  }

  // ---------------------------------------------------------------------
  // Reference definitions over the type tree

  /** Every type id mentioned by a field and the types below it. */
  function IdsOfField(f: ObjectField): set<string>
    decreases f, 2
  {
    (if f.typeId.Some? then {f.typeId.value} else {})
    + (if f.objType.Some? then IdsOfType(f.objType.value) else {})
  }

  function IdsOfType(obj: ObjectType): set<string>
    decreases obj, 1
  {
    if obj.fields.NoFields? then {} else IdsFrom(obj, 0)
  }

  function IdsFrom(obj: ObjectType, i: nat): set<string>
    requires obj.fields.Fields? && i <= |obj.fields.items|
    decreases obj, 0, |obj.fields.items| - i
  {
    if i == |obj.fields.items| then {}
    else
      assert obj.fields.items[i] in obj.fields.items;
      IdsOfField(obj.fields.items[i]) + IdsFrom(obj, i + 1)
  }

  /** The number of fields from position `i` on that carry a type id. */
  function TypedFrom(fs: seq<ObjectField>, i: nat): nat
    requires i <= |fs|
    decreases |fs| - i
  {
    if i == |fs| then 0 else (if fs[i].typeId.Some? then 1 else 0) + TypedFrom(fs, i + 1)
  }

  /** The type ids mentioned by the fields at positions `i` to `k - 1`
      and the types below them. */
  function IdsBetween(obj: ObjectType, i: nat, k: nat): set<string>
    requires obj.fields.Fields? && i <= k <= |obj.fields.items|
    decreases k - i
  {
    if i == k then {} else IdsOfField(obj.fields.items[i]) + IdsBetween(obj, i + 1, k)
  }

  /** The number of fields at positions `i` to `k - 1` that carry a type id. */
  function TypedBetween(fs: seq<ObjectField>, i: nat, k: nat): nat
    requires i <= k <= |fs|
    decreases k - i
  {
    if i == k then 0 else (if fs[i].typeId.Some? then 1 else 0) + TypedBetween(fs, i + 1, k)
  }

  // ---------------------------------------------------------------------
  // The two functions and the field loop

  /** `process_object_field(field, object_type_ids)`. */
  function ProcessObjectField(f: ObjectField, seen: set<string>): (r: Result<Emitted>)
    ensures r.Ok? ==> seen <= r.value.seen <= seen + IdsOfField(f)
    ensures r.Ok? && f.typeId.Some? ==> f.typeId.value in r.value.seen
    decreases f, 2
  {
    if f.typeId.None? || f.typeId.value in seen then Ok(Emitted("", seen))
    else if f.objType.None? then Err(AssertionError("Field type is None"))
    else ProcessObjectType(f.objType.value, seen + {f.typeId.value})
  }

  /** `process_object_type(obj, object_type_ids)`. */
  function ProcessObjectType(obj: ObjectType, seen: set<string>): (r: Result<Emitted>)
    ensures r.Ok? ==> seen <= r.value.seen <= seen + IdsOfType(obj)
    decreases obj, 1
  {
    if obj.fields.NoFields? then Err(ValueError("ObjectType " + obj.name + " has no fields."))
    else
      match SubTypes(obj, 0, [], seen)
      case Err(e) => Err(e)
      case Ok(p) => Ok(Emitted(Join("\n\n", p.0) + ClassBlock(obj.name, obj.description, obj.fields.items), p.1))
  }

  /** The `for field in obj.Fields` loop from position `i` on, collecting
      the sub-type texts of the fields that carry a type id. */
  function SubTypes(obj: ObjectType, i: nat, subs: seq<string>, seen: set<string>): (r: Result<(seq<string>, set<string>)>)
    requires obj.fields.Fields? && i <= |obj.fields.items|
    ensures r.Ok? ==> seen <= r.value.1 <= seen + IdsFrom(obj, i)
    ensures r.Ok? ==> |r.value.0| == |subs| + TypedFrom(obj.fields.items, i) && r.value.0[..|subs|] == subs
    decreases obj, 0, |obj.fields.items| - i
  {
    var fs := obj.fields.items;
    if i == |fs| then Ok((subs, seen))
    else
      assert fs[i] in fs;
      if fs[i].typeId.None? then SubTypes(obj, i + 1, subs, seen)
      else
        match ProcessObjectField(fs[i], seen)
        case Err(e) => Err(e)
        case Ok(em) =>
          var r := SubTypes(obj, i + 1, subs + [em.text], em.seen);
          assert r.Ok? ==> r.value.0[..|subs|] == (subs + [em.text])[..|subs|] by {
            if r.Ok? {
              assert r.value.0[..|subs|] == r.value.0[..|subs| + 1][..|subs|];
            }
          }
          r
  }

  // ---------------------------------------------------------------------
  // Properties

  /** A field without a type id, or whose type was already emitted,
      contributes nothing and leaves the set alone; any other field that
      succeeds leaves its type id in the set, so processing it again with
      the resulting set emits nothing and changes nothing. */
  lemma FieldSeenSet(f: ObjectField, seen: set<string>)
    ensures f.typeId.None? || f.typeId.value in seen ==> ProcessObjectField(f, seen) == Ok(Emitted("", seen))
    ensures var r := ProcessObjectField(f, seen);
      r.Ok? ==> ProcessObjectField(f, r.value.seen) == Ok(Emitted("", r.value.seen))
  {
  }

  /** A field with a new type id but no type record fails the assertion. */
  lemma FieldWithoutType(f: ObjectField, seen: set<string>)
    requires f.typeId.Some? && f.typeId.value !in seen && f.objType.None?
    ensures ProcessObjectField(f, seen) == Err(AssertionError("Field type is None"))
  {
  }

  /** A type emits its sub-type declarations first, one text per field
      that carries a type id (in field order, joined by blank lines), and
      then its own class; a type without a field list fails. */
  lemma ProcessObjectTypeShape(obj: ObjectType, seen: set<string>)
    ensures obj.fields.NoFields? ==> ProcessObjectType(obj, seen) == Err(ValueError("ObjectType " + obj.name + " has no fields."))
    ensures var r := ProcessObjectType(obj, seen);
      r.Ok? ==> exists subs: seq<string> ::
        && |subs| == TypedFrom(obj.fields.items, 0)
        && r.value.text == Join("\n\n", subs) + ClassBlock(obj.name, obj.description, obj.fields.items)
  {
    if obj.fields.Fields? {
      var s := SubTypes(obj, 0, [], seen);
      if s.Ok? {
        assert ProcessObjectType(obj, seen).value.text == Join("\n\n", s.value.0) + ClassBlock(obj.name, obj.description, obj.fields.items);
      }
    }
  }

  lemma TypeText(obj: ObjectType, seen: set<string>)
    requires ProcessObjectType(obj, seen).Ok?
    ensures obj.fields.Fields? && SubTypes(obj, 0, [], seen).Ok?
    ensures ProcessObjectType(obj, seen).value.text ==
      Join("\n\n", SubTypes(obj, 0, [], seen).value.0) + ClassBlock(obj.name, obj.description, obj.fields.items)
  {
  }

  /** A successful type ends with its own class declaration. */
  lemma OwnClassLast(obj: ObjectType, seen: set<string>)
    requires ProcessObjectType(obj, seen).Ok?
    ensures obj.fields.Fields?
    ensures EndsWith(ProcessObjectType(obj, seen).value.text, ClassBlock(obj.name, obj.description, obj.fields.items))
  {
    TypeText(obj, seen);
    EndsWithAppended(Join("\n\n", SubTypes(obj, 0, [], seen).value.0), ClassBlock(obj.name, obj.description, obj.fields.items));
  }

  lemma EndsWithAppended(a: string, b: string)
    ensures EndsWith(a + b, b)
  {
    assert (a + b)[|a|..] == b;
  }

  /** The sub-type entry of the `k`-th field, a field with a type id, sits
      at position `TypedBetween(fs, i, k)` after the entries already
      collected.  The type-id set is threaded through the loop: an id
      already in the set on entry yields an empty entry, and an id that
      neither the set nor any earlier field mentions yields the field
      type's declarations, ending with that type's own class. */
  lemma {:induction false} SubTypesEntry(obj: ObjectType, i: nat, subs: seq<string>, seen: set<string>, k: nat)
    requires obj.fields.Fields? && i <= k < |obj.fields.items|
    requires SubTypes(obj, i, subs, seen).Ok?
    requires obj.fields.items[k].typeId.Some?
    ensures var fs := obj.fields.items;
      var out := SubTypes(obj, i, subs, seen).value.0;
      var j := |subs| + TypedBetween(fs, i, k);
      && j < |out|
      && (fs[k].typeId.value in seen ==> out[j] == "")
      && (fs[k].typeId.value !in seen + IdsBetween(obj, i, k) ==>
            && fs[k].objType.Some? && fs[k].objType.value.fields.Fields?
            && var ty := fs[k].objType.value;
               EndsWith(out[j], ClassBlock(ty.name, ty.description, ty.fields.items)))
    decreases k - i
  {
    var fs := obj.fields.items;
    assert fs[i] in fs;
    var r := SubTypes(obj, i, subs, seen);
    if fs[i].typeId.None? {
      assert i < k;
      assert r == SubTypes(obj, i + 1, subs, seen);
      assert TypedBetween(fs, i, k) == TypedBetween(fs, i + 1, k);
      SubTypesEntry(obj, i + 1, subs, seen, k);
      assert IdsBetween(obj, i + 1, k) <= IdsBetween(obj, i, k);
    } else {
      var pf := ProcessObjectField(fs[i], seen);
      assert pf.Ok?;
      var em := pf.value;
      var next := SubTypes(obj, i + 1, subs + [em.text], em.seen);
      assert r == next;
      if i == k {
        assert next.value.0[..|subs| + 1] == subs + [em.text];
        assert next.value.0[|subs|] == em.text;
        if fs[k].typeId.value !in seen {
          OwnClassLast(fs[k].objType.value, seen + {fs[k].typeId.value});
        }
      } else {
        assert |subs + [em.text]| + TypedBetween(fs, i + 1, k) == |subs| + TypedBetween(fs, i, k);
        SubTypesEntry(obj, i + 1, subs + [em.text], em.seen, k);
        assert IdsBetween(obj, i, k) == IdsOfField(fs[i]) + IdsBetween(obj, i + 1, k);
      }
    }
  }

  /** `Join` places every element between some prefix and suffix. */
  lemma {:induction false} JoinHolds(sep: string, xs: seq<string>, j: nat)
    requires j < |xs|
    ensures exists a, b :: Join(sep, xs) == a + xs[j] + b
    decreases |xs|
  {
    if |xs| == 1 {
      assert Join(sep, xs) == "" + xs[0] + "";
    } else if j == 0 {
      assert Join(sep, xs) == "" + xs[0] + (sep + Join(sep, xs[1..]));
    } else {
      JoinHolds(sep, xs[1..], j - 1);
      var a, b :| Join(sep, xs[1..]) == a + xs[1..][j - 1] + b;
      assert Join(sep, xs) == (xs[0] + sep + a) + xs[j] + b;
    }
  }

  /** Nested declarations come first: when the `k`-th field names a type
      that neither the incoming set nor any earlier field mentions, that
      type's class is declared in the output before the class of `obj`
      itself. */
  lemma NestedDeclaredFirst(obj: ObjectType, seen: set<string>, k: nat)
    requires ProcessObjectType(obj, seen).Ok?
    requires obj.fields.Fields? && k < |obj.fields.items|
    requires var f := obj.fields.items[k];
      f.typeId.Some? && f.typeId.value !in seen + IdsBetween(obj, 0, k)
    ensures var f := obj.fields.items[k];
      && f.objType.Some? && f.objType.value.fields.Fields?
      && var ty := f.objType.value;
         exists a, b :: ProcessObjectType(obj, seen).value.text ==
           a + ClassBlock(ty.name, ty.description, ty.fields.items) + b + ClassBlock(obj.name, obj.description, obj.fields.items)
  {
    var fs := obj.fields.items;
    TypeText(obj, seen);
    var out := SubTypes(obj, 0, [], seen).value.0;
    SubTypesEntry(obj, 0, [], seen, k);
    var j := TypedBetween(fs, 0, k);
    var ty := fs[k].objType.value;
    JoinHolds("\n\n", out, j);
    InnerBefore(Join("\n\n", out), out[j], ClassBlock(ty.name, ty.description, ty.fields.items),
                ClassBlock(obj.name, obj.description, obj.fields.items));
  }

  lemma InnerBefore(joined: string, entry: string, inner: string, outer: string)
    requires exists a, b :: joined == a + entry + b
    requires EndsWith(entry, inner)
    ensures exists a, b :: joined + outer == a + inner + b + outer
  {
    var a, b :| joined == a + entry + b;
    var x := entry[..|entry| - |inner|];
    assert entry == x + inner;
    assert joined + outer == (a + x) + inner + b + outer;
  }

  lemma {:induction false} SubTypesAllSeen(obj: ObjectType, i: nat, subs: seq<string>, seen: set<string>)
    requires obj.fields.Fields? && i <= |obj.fields.items|
    requires forall k :: i <= k < |obj.fields.items| ==>
      obj.fields.items[k].typeId.Some? && obj.fields.items[k].typeId.value in seen
    ensures SubTypes(obj, i, subs, seen) == Ok((subs + seq(|obj.fields.items| - i, _ => ""), seen))
    decreases |obj.fields.items| - i
  {
    var fs := obj.fields.items;
    if i < |fs| {
      assert fs[i] in fs;
      assert ProcessObjectField(fs[i], seen) == Ok(Emitted("", seen));
      SubTypesAllSeen(obj, i + 1, subs + [""], seen);
      assert (subs + [""]) + seq(|fs| - (i + 1), _ => "") == subs + seq(|fs| - i, _ => "");
    } else {
      assert subs + seq(0, _ => "") == subs;
    }
  }

  lemma {:induction false} JoinBlanks(n: nat)
    requires n > 0
    ensures Join("\n\n", seq(n, _ => "")) == Repeat("\n\n", n - 1)
  {
    if n > 1 {
      JoinBlanks(n - 1);
      assert seq(n, _ => "")[1..] == seq(n - 1, _ => "");
    }
  }

  /** A field whose type was already emitted still adds an empty sub-type
      entry: a type all of whose fields refer to already emitted types
      emits one blank-line separator less than it has fields before its
      class. */
  lemma AllSubTypesSeen(obj: ObjectType, seen: set<string>)
    requires obj.fields.Fields? && |obj.fields.items| > 0
    requires forall k :: 0 <= k < |obj.fields.items| ==>
      obj.fields.items[k].typeId.Some? && obj.fields.items[k].typeId.value in seen
    ensures ProcessObjectType(obj, seen) ==
      Ok(Emitted(Repeat("\n\n", |obj.fields.items| - 1) + ClassBlock(obj.name, obj.description, obj.fields.items), seen))
  {
    SubTypesAllSeen(obj, 0, [], seen);
    JoinBlanks(|obj.fields.items|);
    assert [] + seq(|obj.fields.items|, _ => "") == seq(|obj.fields.items|, _ => "");
  }
}
