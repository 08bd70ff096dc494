/** The fragment-tree linker of the second-generation compiler
    (`recursive_compile_route` and `compile_route` in
    codex/develop/compile.py).  A function tree is composed bottom-up:
    a leaf contributes its own code, a composite first compiles its
    children in declaration order and then appends its own code.  Every
    level is syntax-checked.

    The tree that the source fetches level by level from its database is
    passed in as a value, and the Python parser is a parameter
    `check: string -> Option<string>` that answers `None` when the text
    parses and `Some(message)` with the syntax error otherwise.
 */
module TreeLinker {
  import opened Basics
  import opened Text
  import opened ObjectTypes

  /** A stored package; only its id is used. */
  datatype Package = Package(id: string)

  /** The sub-functions of a function: `NoChildren` when the record has no
      child list at all (the source's `ChildFunction is None`), which makes
      the function a leaf. */
  datatype ChildList = NoChildren | Children(items: seq<Function>)

  /** A function of the tree.  A missing package list and a missing
      argument list behave like empty ones in the source and are modelled
      as empty sequences. */
  datatype Function = Function(
    id: string,
    functionName: string,
    functionCode: Option<string>,
    importStatements: seq<string>,
    packages: seq<Package>,
    args: seq<ObjectField>,
    ret: Option<ObjectField>,
    children: ChildList)

  /** `CompiledFunction`: packages, imports, code and pydantic models. */
  datatype CompiledFunction = CompiledFunction(packages: seq<Package>, imports: seq<string>, code: string, models: seq<string>)

  const NoModels: CompiledFunction := CompiledFunction([], [], "", [])

  /** The text handed to the syntax check: the imports, a blank line, the code. */
  function CheckText(imports: seq<string>, code: string): string
  {
    Join("\n", imports) + "\n\n" + code
  }

  function SyntaxErrorIn(message: string, code: string): PyError
  {
    ValueError("Syntax error in function code: " + message + ", " + code)
  }

  /** The models of a list of fields, processed in order against one
      type-id set that starts empty for each function. */
  function FieldModels(fs: seq<ObjectField>, seen: set<string>): (r: Result<seq<string>>)
    ensures r.Ok? ==> |r.value| == |fs|
    decreases |fs|
  {
    if |fs| == 0 then Ok([])
    else
      match ProcessObjectField(fs[0], seen)
      case Err(e) => Err(e)
      case Ok(em) =>
        match FieldModels(fs[1..], em.seen)
        case Err(e) => Err(e)
        case Ok(rest) => Ok([em.text] + rest)
  }

  /** The models of the function's own arguments and then its return type. */
  function OwnModels(f: Function): Result<seq<string>>
  {
    FieldModels(f.args + (if f.ret.Some? then [f.ret.value] else []), {})
  }

  /** `recursive_compile_route(function)`. */
  function CompileFunction(f: Function, check: string -> Option<string>): (r: Result<CompiledFunction>)
    ensures r.Ok? ==> check(CheckText(r.value.imports, r.value.code)).None?
    decreases f, 1
  {
    match OwnModels(f)
    case Err(e) => Err(e)
    case Ok(models) =>
      if f.children.NoChildren? then
        if f.functionCode.None? then Err(ValueError("Leaf Function code is required! " + f.id))
        else
          var code := CheckText(f.importStatements, f.functionCode.value);
          match check(code)
          case Some(msg) => Err(SyntaxErrorIn(msg, code))
          case None => Ok(CompiledFunction(f.packages, f.importStatements, f.functionCode.value, models))
      else
        match LinkChildren(f, 0, NoModels, check)
        case Err(e) => Err(e)
        case Ok(acc) =>
          var packages := acc.packages + f.packages;
          var imports := acc.imports + f.importStatements;
          if f.functionCode.None? then Err(ValueError("Function code is required! " + f.id))
          else
            var code := acc.code + "\n\n" + f.functionCode.value;
            match check(CheckText(imports, code))
            case Some(msg) => Err(SyntaxErrorIn(msg, code))
            case None => Ok(CompiledFunction(packages, imports, code, acc.models))
  }

  /** The `for child_function in function.ChildFunction` loop from child
      `i` on, extending the accumulated packages, imports and models and
      appending a blank line and the child's code. */
  function LinkChildren(f: Function, i: nat, acc: CompiledFunction, check: string -> Option<string>): Result<CompiledFunction>
    requires f.children.Children? && i <= |f.children.items|
    decreases f, 0, |f.children.items| - i
  {
    var cs := f.children.items;
    if i == |cs| then Ok(acc)
    else
      assert cs[i] in cs;
      match CompileFunction(cs[i], check)
      case Err(e) => Err(e)
      case Ok(c) =>
        LinkChildren(f, i + 1, AddChild(acc, c), check)
  }

  /** One child's contribution to the accumulated result. */
  function AddChild(acc: CompiledFunction, c: CompiledFunction): CompiledFunction
  {
    CompiledFunction(acc.packages + c.packages, acc.imports + c.imports, acc.code + "\n\n" + c.code, acc.models + c.models)
  }

  // ---------------------------------------------------------------------
  // Reference definitions

  /** Every child compiled on its own, in order; the first failure wins. */
  function CompileAll(cs: seq<Function>, check: string -> Option<string>): (r: Result<seq<CompiledFunction>>)
    ensures r.Ok? ==> |r.value| == |cs|
  {
    if |cs| == 0 then Ok([])
    else
      match CompileFunction(cs[0], check)
      case Err(e) => Err(e)
      case Ok(c) =>
        match CompileAll(cs[1..], check)
        case Err(e) => Err(e)
        case Ok(rest) => Ok([c] + rest)
  }

  function AllCode(cs: seq<CompiledFunction>): string
  {
    if |cs| == 0 then "" else "\n\n" + cs[0].code + AllCode(cs[1..])
  }

  function AllImports(cs: seq<CompiledFunction>): seq<string>
  {
    if |cs| == 0 then [] else cs[0].imports + AllImports(cs[1..])
  }

  function AllPackages(cs: seq<CompiledFunction>): seq<Package>
  {
    if |cs| == 0 then [] else cs[0].packages + AllPackages(cs[1..])
  }

  function AllModels(cs: seq<CompiledFunction>): seq<string>
  {
    if |cs| == 0 then [] else cs[0].models + AllModels(cs[1..])
  }

  /** The accumulation over the compiled children, as the composite uses it. */
  function Linked(acc: CompiledFunction, cs: seq<CompiledFunction>): CompiledFunction
  {
    CompiledFunction(acc.packages + AllPackages(cs), acc.imports + AllImports(cs),
                     acc.code + AllCode(cs), acc.models + AllModels(cs))
  }

  // ---------------------------------------------------------------------
  // Properties

  /** The own models are computed before the leaf/composite split: when
      one of them fails, the function fails with that error, whatever its
      children, code or check. */
  lemma OwnModelsFail(f: Function, check: string -> Option<string>)
    requires OwnModels(f).Err?
    ensures CompileFunction(f, check) == Err(OwnModels(f).error)
  {
  }

  /** All fields of one function share one type-id set: a field without a
      type id, with an id already in the set, or with the id of an earlier
      field contributes an empty model. */
  lemma {:induction false} FieldModelsRepeat(fs: seq<ObjectField>, seen: set<string>, j: nat)
    requires FieldModels(fs, seen).Ok? && j < |fs|
    requires fs[j].typeId.None? || fs[j].typeId.value in seen
      || exists k :: 0 <= k < j && fs[k].typeId == fs[j].typeId
    ensures FieldModels(fs, seen).value[j] == ""
    decreases |fs|
  {
    var em := ProcessObjectField(fs[0], seen).value;
    var rest := FieldModels(fs[1..], em.seen);
    assert FieldModels(fs, seen).value == [em.text] + rest.value;
    if j > 0 {
      assert fs[j] == fs[1..][j - 1];
      if fs[j].typeId.Some? && fs[j].typeId.value !in seen {
        var k :| 0 <= k < j && fs[k].typeId == fs[j].typeId;
        if k > 0 {
          assert fs[1..][k - 1] == fs[k];
        }
      }
      FieldModelsRepeat(fs[1..], em.seen, j - 1);
    }
  }

  /** Every type id mentioned by a list of fields and the types below them. */
  function IdsOfFields(fs: seq<ObjectField>): set<string>
    decreases |fs|
  {
    if |fs| == 0 then {} else IdsOfField(fs[0]) + IdsOfFields(fs[1..])
  }

  /** A field whose type id is new, both to the incoming set and to every
      type mentioned by the earlier fields, declares its type: its model
      ends with that type's class. */
  lemma {:induction false} FieldModelsEntry(fs: seq<ObjectField>, seen: set<string>, j: nat)
    requires FieldModels(fs, seen).Ok? && j < |fs|
    requires fs[j].typeId.Some? && fs[j].typeId.value !in seen + IdsOfFields(fs[..j])
    ensures fs[j].objType.Some? && fs[j].objType.value.fields.Fields?
    ensures var ty := fs[j].objType.value;
      EndsWith(FieldModels(fs, seen).value[j], ClassBlock(ty.name, ty.description, ty.fields.items))
    decreases |fs|
  {
    var pf := ProcessObjectField(fs[0], seen);
    assert pf.Ok?;
    var em := pf.value;
    var rest := FieldModels(fs[1..], em.seen);
    assert FieldModels(fs, seen).value == [em.text] + rest.value;
    if j == 0 {
      OwnClassLast(fs[0].objType.value, seen + {fs[0].typeId.value});
    } else {
      assert fs[..j][1..] == fs[1..][..j - 1];
      assert IdsOfFields(fs[..j]) == IdsOfField(fs[0]) + IdsOfFields(fs[1..][..j - 1]);
      assert fs[j] == fs[1..][j - 1];
      FieldModelsEntry(fs[1..], em.seen, j - 1);
    }
  }

  /** Only the ids actually emitted are shared: when an earlier field's
      type is skipped because its id is already in the set, the types
      below it are not added, and a later field with one of those ids
      still declares its class. */
  lemma NestedIdNotShared()
    ensures var inner := ObjectType("b", "B", "", Fields([ObjectField("x", "int", "", None, None)]));
      var outer := ObjectType("a", "A", "", Fields([ObjectField("b", "B", "", Some("b"), Some(inner))]));
      var fs := [ObjectField("a", "A", "", Some("a"), Some(outer)), ObjectField("b", "B", "", Some("b"), Some(inner))];
      && "b" in IdsOfFields(fs[..1])
      && FieldModels(fs, {"a"}) == Ok(["", ClassBlock("B", "", inner.fields.items)])
  {
    var inner := ObjectType("b", "B", "", Fields([ObjectField("x", "int", "", None, None)]));
    var outer := ObjectType("a", "A", "", Fields([ObjectField("b", "B", "", Some("b"), Some(inner))]));
    var fs := [ObjectField("a", "A", "", Some("a"), Some(outer)), ObjectField("b", "B", "", Some("b"), Some(inner))];
    assert fs[..1] == [fs[0]];
    assert IdsOfFields([fs[0]]) == IdsOfField(fs[0]) + IdsOfFields([]);
    assert IdsOfField(outer.fields.items[0]) <= IdsFrom(outer, 0);
    assert "b" in IdsOfField(fs[0]);
    assert ProcessObjectField(fs[0], {"a"}) == Ok(Emitted("", {"a"}));
    var ab := {"a"} + {"b"};
    assert ab == {"a", "b"};
    assert SubTypes(inner, 1, [], ab) == Ok(([], ab));
    assert SubTypes(inner, 0, [], ab) == Ok(([], ab));
    var cb := ClassBlock("B", "", inner.fields.items);
    assert Join("\n\n", []) + cb == cb;
    assert ProcessObjectType(inner, ab) == Ok(Emitted(cb, ab));
    var tail := fs[1..];
    assert tail[0] == fs[1] && tail[1..] == [];
    assert ProcessObjectField(tail[0], {"a"}) == Ok(Emitted(cb, ab));
    assert FieldModels(tail[1..], ab) == Ok([]);
    assert |tail| == 1;
    assert FieldModels(tail, {"a"}) == Ok([cb] + []);
    assert [cb] + [] == [cb];
    assert |fs| == 2 && fs[1..] == tail;
    assert FieldModels(fs, {"a"}) == Ok([""] + [cb]);
    assert [""] + [cb] == ["", cb];
  }

  /** A leaf keeps exactly its own packages, imports and code and its own
      models; it fails first when one of its own models fails, then when
      it has no code, and then with the syntax error and the checked text
      when the check rejects it. */
  lemma LeafResult(f: Function, check: string -> Option<string>)
    requires f.children.NoChildren?
    ensures OwnModels(f).Err? ==> CompileFunction(f, check) == Err(OwnModels(f).error)
    ensures OwnModels(f).Ok? && f.functionCode.None? ==>
      CompileFunction(f, check) == Err(ValueError("Leaf Function code is required! " + f.id))
    ensures OwnModels(f).Ok? && f.functionCode.Some? ==>
      var text := CheckText(f.importStatements, f.functionCode.value);
      CompileFunction(f, check) ==
        if check(text).Some? then Err(SyntaxErrorIn(check(text).value, text))
        else Ok(CompiledFunction(f.packages, f.importStatements, f.functionCode.value, OwnModels(f).value))
  {
  }

  lemma {:induction false} LinkChildrenSpec(f: Function, i: nat, acc: CompiledFunction, check: string -> Option<string>)
    requires f.children.Children? && i <= |f.children.items|
    ensures var all := CompileAll(f.children.items[i..], check);
      LinkChildren(f, i, acc, check) == if all.Ok? then Ok(Linked(acc, all.value)) else Err(all.error)
    decreases |f.children.items| - i
  {
    var cs := f.children.items;
    if i == |cs| {
      assert cs[i..] == [];
      assert CompileAll([], check) == Ok([]);
      LinkedNone(acc);
    } else {
      assert cs[i..][0] == cs[i];
      assert cs[i..][1..] == cs[i + 1..];
      var c := CompileFunction(cs[i], check);
      if c.Ok? {
        LinkChildrenSpec(f, i + 1, AddChild(acc, c.value), check);
        var rest := CompileAll(cs[i + 1..], check);
        if rest.Ok? {
          LinkedCons(acc, c.value, rest.value);
        }
      }
    }
  }

  lemma LinkedNone(acc: CompiledFunction)
    ensures Linked(acc, []) == acc
  {
    assert acc.packages + [] == acc.packages && acc.imports + [] == acc.imports;
    assert acc.code + "" == acc.code && acc.models + [] == acc.models;
  }

  lemma LinkedCons(acc: CompiledFunction, c: CompiledFunction, rest: seq<CompiledFunction>)
    ensures Linked(AddChild(acc, c), rest) == Linked(acc, [c] + rest)
  {
    var all := [c] + rest;
    assert all[1..] == rest;
    assert AllPackages(all) == c.packages + AllPackages(rest);
    assert AllImports(all) == c.imports + AllImports(rest);
    assert AllModels(all) == c.models + AllModels(rest);
    assert AllCode(all) == "\n\n" + c.code + AllCode(rest);
  }

  /** A composite compiles its children in order, each on its own; on
      success its code is a blank line and the code of each child in turn,
      then a blank line and its own code; its imports and packages are the
      children's in order followed by its own, without removing repeats;
      its models are the children's only.  A failing own model comes
      first, even though the own models are then dropped; next the first
      failing child's error is the result, and a composite without code
      fails after its children compiled. */
  lemma CompositeResult(f: Function, check: string -> Option<string>)
    requires f.children.Children?
    ensures OwnModels(f).Err? ==> CompileFunction(f, check) == Err(OwnModels(f).error)
    ensures OwnModels(f).Ok? ==>
      var all := CompileAll(f.children.items, check);
      && (all.Err? ==> CompileFunction(f, check) == Err(all.error))
      && (all.Ok? && f.functionCode.None? ==> CompileFunction(f, check) == Err(ValueError("Function code is required! " + f.id)))
      && (all.Ok? && f.functionCode.Some? ==>
            var cs := all.value;
            var code := AllCode(cs) + "\n\n" + f.functionCode.value;
            var imports := AllImports(cs) + f.importStatements;
            CompileFunction(f, check) ==
              (if check(CheckText(imports, code)).Some? then Err(SyntaxErrorIn(check(CheckText(imports, code)).value, code))
               else Ok(CompiledFunction(AllPackages(cs) + f.packages, imports, code, AllModels(cs)))))
  {
    LinkChildrenSpec(f, 0, NoModels, check);
    assert f.children.items[0..] == f.children.items;
    var all := CompileAll(f.children.items, check);
    if all.Ok? {
      assert Linked(NoModels, all.value) ==
        CompiledFunction(AllPackages(all.value), AllImports(all.value), AllCode(all.value), AllModels(all.value));
    }
  }

  lemma {:induction false} CompileAllElements(cs: seq<Function>, check: string -> Option<string>)
    requires CompileAll(cs, check).Ok?
    ensures forall k :: 0 <= k < |cs| ==> CompileFunction(cs[k], check) == Ok(CompileAll(cs, check).value[k])
  {
    if |cs| > 0 {
      CompileAllElements(cs[1..], check);
      forall k | 1 <= k < |cs|
        ensures cs[k] == cs[1..][k - 1]
      {
      }
    }
  }

  /** A composite discards the models of its own arguments and return
      type: two composites that differ only there compile alike, once
      their own models can be computed. */
  lemma CompositeIgnoresOwnModels(f: Function, args: seq<ObjectField>, ret: Option<ObjectField>, check: string -> Option<string>)
    requires f.children.Children?
    requires OwnModels(f).Ok? && OwnModels(f.(args := args, ret := ret)).Ok?
    ensures CompileFunction(f, check) == CompileFunction(f.(args := args, ret := ret), check)
  {
    var g := f.(args := args, ret := ret);
    CompositeResult(f, check);
    CompositeResult(g, check);
  }

  /** A leaf whose first argument has a type id declares that type: the
      first of its models ends with the type's class. */
  lemma LeafDeclaresFirstArg(c: Function, check: string -> Option<string>)
    requires c.children.NoChildren? && CompileFunction(c, check).Ok?
    requires |c.args| > 0 && c.args[0].typeId.Some?
    ensures c.args[0].objType.Some? && c.args[0].objType.value.fields.Fields?
    ensures var ty := c.args[0].objType.value;
      var m := CompileFunction(c, check).value.models;
      |m| > 0 && EndsWith(m[0], ClassBlock(ty.name, ty.description, ty.fields.items))
  {
    LeafResult(c, check);
    var fs := c.args + (if c.ret.Some? then [c.ret.value] else []);
    assert fs[0] == c.args[0];
    var pf := ProcessObjectField(fs[0], {});
    assert pf.Ok?;
    var t := c.args[0].typeId.value;
    assert pf == ProcessObjectType(c.args[0].objType.value, {} + {t});
    assert OwnModels(c).value[0] == pf.value.text;
    OwnClassLast(c.args[0].objType.value, {} + {t});
  }

  /** Every function compiles its models against a fresh type-id set, so
      siblings share nothing: a composite's models are its children's in
      order, and two leaf children whose first arguments have the same
      structured type both declare that type's class. */
  lemma SiblingsRepeatModels(f: Function, c1: Function, c2: Function, check: string -> Option<string>)
    requires f.children == Children([c1, c2])
    requires CompileFunction(f, check).Ok?
    ensures CompileFunction(c1, check).Ok? && CompileFunction(c2, check).Ok?
    ensures CompileFunction(f, check).value.models ==
      CompileFunction(c1, check).value.models + CompileFunction(c2, check).value.models
    ensures (&& c1.children.NoChildren? && c2.children.NoChildren?
             && |c1.args| > 0 && |c2.args| > 0 && c1.args[0].typeId.Some? && c2.args[0].typeId.Some?
             && c1.args[0].objType == c2.args[0].objType) ==>
      && c1.args[0].objType.Some? && c1.args[0].objType.value.fields.Fields?
      && var ty := c1.args[0].objType.value;
         var m := CompileFunction(f, check).value.models;
         var n := |CompileFunction(c1, check).value.models|;
         && 0 < n < |m|
         && EndsWith(m[0], ClassBlock(ty.name, ty.description, ty.fields.items))
         && EndsWith(m[n], ClassBlock(ty.name, ty.description, ty.fields.items))
  {
    TwoChildrenModels(f, c1, c2, check);
    if (&& c1.children.NoChildren? && c2.children.NoChildren?
        && |c1.args| > 0 && |c2.args| > 0 && c1.args[0].typeId.Some? && c2.args[0].typeId.Some?
        && c1.args[0].objType == c2.args[0].objType)
    {
      LeafDeclaresFirstArg(c1, check);
      LeafDeclaresFirstArg(c2, check);
      FirstOfEach(CompileFunction(c1, check).value.models, CompileFunction(c2, check).value.models);
    }
  }

  lemma TwoChildrenModels(f: Function, c1: Function, c2: Function, check: string -> Option<string>)
    requires f.children == Children([c1, c2])
    requires CompileFunction(f, check).Ok?
    ensures CompileFunction(c1, check).Ok? && CompileFunction(c2, check).Ok?
    ensures CompileFunction(f, check).value.models ==
      CompileFunction(c1, check).value.models + CompileFunction(c2, check).value.models
  {
    CompositeResult(f, check);
    var cs := [c1, c2];
    var all := CompileAll(cs, check);
    assert cs[1..] == [c2];
    assert [c2][1..] == [];
    assert all.Ok?;
    var a1 := CompileFunction(c1, check).value;
    var a2 := CompileFunction(c2, check).value;
    assert all.value == [a1, a2];
    assert AllModels(all.value) == a1.models + AllModels(all.value[1..]);
    assert all.value[1..][1..] == [];
    assert AllModels(all.value[1..]) == a2.models + [];
  }

  lemma FirstOfEach(m1: seq<string>, m2: seq<string>)
    requires |m1| > 0 && |m2| > 0
    ensures (m1 + m2)[0] == m1[0] && (m1 + m2)[|m1|] == m2[0]
  {
  }

  /** An empty child list still makes a composite: its code is a blank
      line and its own code, and its own models are dropped. */
  lemma EmptyChildListIsComposite(f: Function, check: string -> Option<string>)
    requires f.children == Children([]) && OwnModels(f).Ok? && f.functionCode.Some?
    requires check(CheckText(f.importStatements, "\n\n" + f.functionCode.value)).None?
    ensures CompileFunction(f, check) ==
      Ok(CompiledFunction(f.packages, f.importStatements, "\n\n" + f.functionCode.value, []))
  {
    CompositeResult(f, check);
    assert CompileAll([], check) == Ok([]);
    assert "" + "\n\n" + f.functionCode.value == "\n\n" + f.functionCode.value;
    assert [] + f.importStatements == f.importStatements;
    assert [] + f.packages == f.packages;
  }

  // ---------------------------------------------------------------------
  // compile_route

  /** The API route a compiled route serves. */
  datatype ApiRoute = ApiRoute(id: string, description: string, functionName: string)

  /** The record `compile_route` stores. */
  datatype RouteRecord = RouteRecord(
    description: string,
    packageIds: set<string>,
    fileName: string,
    mainFunctionName: string,
    compiledCode: string,
    rootFunctionId: string,
    apiRouteId: string)

  const BaseModelImport: string := "from pydantic import BaseModel"

  /** `compile_route(ids, route_root_func, api_route)`, up to the database
      write. */
  function CompileRoute(root: Function, api: ApiRoute, check: string -> Option<string>): Result<RouteRecord>
  {
    match CompileFunction(root, check)
    case Err(e) => Err(e)
    case Ok(cf) =>
      var code := RouteText(cf.imports + [BaseModelImport], cf.models, cf.code);
      Ok(RouteRecord(api.description, set p | p in cf.packages :: p.id, api.functionName + "_service.py",
                     root.functionName, code, root.id, api.id))
  }

  /** The stored route lists each package id of the compiled tree once, and
      its file starts with one line per import of the tree and then the
      pydantic import (when no import spans lines), and ends with the
      compiled code after a blank line; the file is named after the API
      route's function. */
  lemma CompileRouteLayout(root: Function, api: ApiRoute, check: string -> Option<string>)
    requires CompileFunction(root, check).Ok?
    ensures var cf := CompileFunction(root, check).value;
      var r := CompileRoute(root, api, check);
      && r.Ok?
      && (forall id :: id in r.value.packageIds <==> exists k :: 0 <= k < |cf.packages| && cf.packages[k].id == id)
      && r.value.fileName == api.functionName + "_service.py"
      && r.value.mainFunctionName == root.functionName
      && r.value.compiledCode ==
           Join("\n", cf.imports + [BaseModelImport]) + "\n\n" + Join("\n\n", cf.models) + "\n\n" + cf.code
      && EndsWith(r.value.compiledCode, "\n\n" + cf.code)
      && ((forall k :: 0 <= k < |cf.imports| ==> '\n' !in cf.imports[k]) ==>
            exists rest :: Split(r.value.compiledCode, "\n") == cf.imports + [BaseModelImport] + rest)
  {
    var cf := CompileFunction(root, check).value;
    var r := CompileRoute(root, api, check);
    var ids := set p | p in cf.packages :: p.id;
    forall id | id in ids
      ensures exists k :: 0 <= k < |cf.packages| && cf.packages[k].id == id
    {
      var p :| p in cf.packages && p.id == id;
      var k :| 0 <= k < |cf.packages| && cf.packages[k] == p;
    }
    assert r.value.compiledCode == RouteText(cf.imports + [BaseModelImport], cf.models, cf.code);
    RouteTextEnds(cf.imports + [BaseModelImport], cf.models, cf.code);
    if forall k :: 0 <= k < |cf.imports| ==> '\n' !in cf.imports[k] {
      assert '\n' !in BaseModelImport;
      RouteTextLines(cf.imports + [BaseModelImport], cf.models, cf.code);
    }
  }

  /** The text of a route's file: its import lines, a blank line, the
      model declarations separated by blank lines, a blank line and the
      code. */
  function RouteText(lines: seq<string>, models: seq<string>, code: string): string
  {
    Join("\n", lines) + "\n\n" + Join("\n\n", models) + "\n\n" + code
  }

  lemma RouteTextEnds(lines: seq<string>, models: seq<string>, code: string)
    ensures EndsWith(RouteText(lines, models, code), "\n\n" + code)
  {
    var t := RouteText(lines, models, code);
    assert t == (Join("\n", lines) + "\n\n" + Join("\n\n", models)) + ("\n\n" + code);
  }

  lemma RouteTextLines(lines: seq<string>, models: seq<string>, code: string)
    requires |lines| > 0
    requires forall k :: 0 <= k < |lines| ==> '\n' !in lines[k]
    ensures exists rest :: Split(RouteText(lines, models, code), "\n") == lines + rest
  {
    var tail := "\n" + Join("\n\n", models) + "\n\n" + code;
    assert RouteText(lines, models, code) == Join("\n", lines) + "\n" + tail;
    SplitJoinPrefix(lines, '\n', tail);
  }
}
