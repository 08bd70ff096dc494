/** The parsing helpers of the code-graph chain (codex/chains/code_graph.py):
    extraction of the fenced Python block from a model reply, the import
    lines the AST visitor records, and the split of the visited function
    map into the main function and the stubs it calls.

    `ast.parse` followed by the visitor's walk is a parameter: it turns the
    extracted code into the pre-order list of the statements the visitor
    reacts to (imports, `from` imports and function definitions, nested
    ones included), or into the error the parser raises.
 */
module CodeGraph {
  import opened Basics
  import opened Text

  const PythonFence: string := "```python"
  const Fence: string := "```"

  /** The text before the first occurrence of `pat`, or all of `s`. */
  function Before(s: string, pat: string): (r: string)
    ensures StartsWith(s, r)
    ensures !Occurs(s, pat) ==> r == s
  {
    var k := Find(s, pat);
    if k < 0 then s else s[..k]
  }

  /** The text after the first occurrence of `pat`. */
  function After(s: string, pat: string): (r: string)
    requires Occurs(s, pat)
    ensures |r| <= |s| - |pat|
  {
    s[Find(s, pat) + |pat|..]
  }

  /** `_sanitize_output(text)`: `text.split("```python")[1].split("```")[0]`.
      Without a Python fence the list has one element and the index fails. */
  function SanitizeOutput(text: string): (r: Result<string>)
    ensures r.Ok? <==> Occurs(text, PythonFence)
    ensures r.Err? ==> r.error == IndexError("list index out of range")
    ensures r.Ok? ==> !Occurs(r.value, Fence)
  {
    var parts := Split(text, PythonFence);
    if |parts| < 2 then Err(IndexError("list index out of range"))
    else
      SplitHeadFree(parts[1], Fence);
      Ok(Split(parts[1], Fence)[0])
  }

  // ---------------------------------------------------------------------
  // Facts about the first occurrence

  lemma FindAt(s: string, pat: string, k: int)
    requires OccursAt(s, k, pat)
    requires forall j :: 0 <= j < k ==> !OccursAt(s, j, pat)
    ensures Find(s, pat) == k
  {
    assert Occurs(s, pat);
  }

  lemma FindAbsent(s: string, pat: string)
    requires forall j :: 0 <= j <= |s| ==> !OccursAt(s, j, pat)
    ensures Find(s, pat) == -1
  {
  }

  /** The first piece of a split never holds the separator. */
  lemma SplitHeadFree(s: string, sep: string)
    requires |sep| > 0
    ensures !Occurs(Split(s, sep)[0], sep)
  {
    SplitHead(s, sep);
    var k := Find(s, sep);
    if k >= 0 {
      var t := s[..k];
      forall j | 0 <= j <= |t|
        ensures !OccursAt(t, j, sep)
      {
        if OccursAt(t, j, sep) {
          assert s[j..j + |sep|] == t[j..j + |sep|];
          assert OccursAt(s, j, sep);
        }
      }
    }
  }

  /** Every character covered by a backtick fence is a backtick. */
  lemma BacktickInside(s: string, k: int, i: int)
    requires OccursAt(s, k, Fence)
    ensures k <= i < k + |Fence| ==> s[i] == '`'
  {
    if k <= i < k + |Fence| {
      assert s[i] == s[k..k + 3][i - k];
    }
  }

  lemma OccursInPrefix(s: string, m: int, j: int, q: string)
    requires 0 <= m <= |s|
    ensures OccursAt(s[..m], j, q) ==> OccursAt(s, j, q) && j + |q| <= m
  {
    if OccursAt(s[..m], j, q) {
      assert s[j..j + |q|] == s[..m][j..j + |q|];
    }
  }

  /** Cutting at the first `p` and then at the first `q`, where `p` starts
      with `q`, cuts at the first `q`, unless that `q` straddles the first
      `p` without starting at it. */
  lemma BeforeNested(s: string, p: string, q: string)
    requires 0 < |q| <= |p| && p[..|q|] == q
    requires var m := Find(s, p); m < 0 || Find(s, q) + |q| <= m || Find(s, q) == m
    ensures Before(Before(s, p), q) == Before(s, q)
  {
    var m := Find(s, p);
    if m >= 0 {
      assert s[m..m + |q|] == s[m..m + |p|][..|q|];
      assert OccursAt(s, m, q);
      assert Occurs(s, q);
      var kq := Find(s, q);
      var t := s[..m];
      if kq == m {
        forall j | 0 <= j <= |t|
          ensures !OccursAt(t, j, q)
        {
          OccursInPrefix(s, m, j, q);
        }
        FindAbsent(t, q);
      } else {
        assert t[kq..kq + |q|] == s[kq..kq + |q|];
        forall j | 0 <= j < kq
          ensures !OccursAt(t, j, q)
        {
          OccursInPrefix(s, m, j, q);
        }
        FindAt(t, q, kq);
        assert t[..kq] == s[..kq];
      }
    }
  }

  /** A successful extraction is the text after the first Python fence,
      cut at that text's next Python fence, and then cut at its first
      backtick fence. */
  lemma SanitizeCuts(text: string)
    requires Occurs(text, PythonFence)
    ensures SanitizeOutput(text) == Ok(Before(Before(After(text, PythonFence), PythonFence), Fence))
  {
    var k := Find(text, PythonFence);
    var rest := After(text, PythonFence);
    var parts := Split(text, PythonFence);
    assert parts == [text[..k]] + Split(rest, PythonFence);
    SplitHead(rest, PythonFence);
    SplitHead(Before(rest, PythonFence), Fence);
  }

  /** The extraction is the text between the first Python fence and the
      next backtick fence, provided that no backtick sits right before the
      next Python fence. */
  lemma SanitizeExtracts(text: string)
    requires Occurs(text, PythonFence)
    requires var rest := After(text, PythonFence);
      var m := Find(rest, PythonFence);
      m <= 0 || rest[m - 1] != '`'
    ensures SanitizeOutput(text) == Ok(Before(After(text, PythonFence), Fence))
  {
    var rest := After(text, PythonFence);
    SanitizeCuts(text);
    FenceNotStraddling(rest);
    BeforeNested(rest, PythonFence, Fence);
  }

  /** The first backtick fence of a text either starts at its first Python
      fence or ends before it, unless a backtick precedes that Python fence. */
  lemma FenceNotStraddling(rest: string)
    requires var m := Find(rest, PythonFence); m <= 0 || rest[m - 1] != '`'
    ensures var m := Find(rest, PythonFence);
      m < 0 || Find(rest, Fence) + |Fence| <= m || Find(rest, Fence) == m
  {
    var m := Find(rest, PythonFence);
    if m >= 0 {
      assert rest[m..m + 3] == rest[m..m + 9][..3];
      assert OccursAt(rest, m, Fence);
      var kq := Find(rest, Fence);
      assert kq <= m;
      BacktickInside(rest, kq, m - 1);
    }
  }

  /** A reply made of a preamble, a Python fence, the code, a closing fence
      and a postscript gives back exactly the code, when the preamble holds
      no Python fence, the code no backtick fence (not even one completed
      by the closing fence) and the postscript does not start with a
      backtick. */
  lemma SanitizeRoundTrip(pre: string, code: string, post: string)
    requires !Occurs(pre + "```pytho", PythonFence)
    requires !Occurs(code + "``", Fence)
    requires |post| == 0 || post[0] != '`'
    ensures SanitizeOutput(pre + PythonFence + code + Fence + post) == Ok(code)
  {
    var text := pre + PythonFence + code + Fence + post;
    var rest := code + Fence + post;
    assert text == pre + PythonFence + rest;
    OpeningFenceAt(pre, rest);
    assert After(text, PythonFence) == rest;
    ClosingFenceAt(code, post);
    NextFenceAfterCode(code, post);
    SanitizeCuts(text);
    BeforeNested(rest, PythonFence, Fence);
    assert rest[..|code|] == code;
  }

  lemma OpeningFenceAt(pre: string, rest: string)
    requires !Occurs(pre + "```pytho", PythonFence)
    ensures Find(pre + PythonFence + rest, PythonFence) == |pre|
  {
    var text := pre + PythonFence + rest;
    var pc := pre + "```pytho";
    forall j | 0 <= j < |pre|
      ensures !OccursAt(text, j, PythonFence)
    {
      if OccursAt(text, j, PythonFence) {
        assert text[j..j + 9] == pc[j..j + 9];
        assert OccursAt(pc, j, PythonFence);
      }
    }
    assert text[|pre|..|pre| + 9] == PythonFence;
    FindAt(text, PythonFence, |pre|);
  }

  lemma ClosingFenceAt(code: string, post: string)
    requires !Occurs(code + "``", Fence)
    ensures Find(code + Fence + post, Fence) == |code|
  {
    var rest := code + Fence + post;
    var cc := code + "``";
    forall j | 0 <= j < |code|
      ensures !OccursAt(rest, j, Fence)
    {
      if OccursAt(rest, j, Fence) {
        assert rest[j..j + 3] == cc[j..j + 3];
        assert OccursAt(cc, j, Fence);
      }
    }
    assert rest[|code|..|code| + 3] == Fence;
    FindAt(rest, Fence, |code|);
  }

  lemma NextFenceAfterCode(code: string, post: string)
    requires !Occurs(code + "``", Fence)
    requires |post| == 0 || post[0] != '`'
    ensures var rest := code + Fence + post;
      var m := Find(rest, PythonFence);
      m < 0 || m == |code| || m >= |code| + 3
  {
    var rest := code + Fence + post;
    var m := Find(rest, PythonFence);
    if m >= 0 {
      ClosingFenceAt(code, post);
      assert rest[m..m + 3] == rest[m..m + 9][..3];
      assert OccursAt(rest, m, Fence);
      BacktickInside(rest, m, |code| + 3);
      PostHead(code, post);
    }
  }

  lemma PostHead(code: string, post: string)
    ensures |post| > 0 ==> (code + Fence + post)[|code| + 3] == post[0]
  {
  }

  /** When a backtick sits right before the second Python fence, the
      backtick fence that closes the code overlaps that Python fence: the
      first cut, at the Python fence, keeps the stray backtick, so the
      extraction is not the text before the closing fence. */
  lemma SanitizeKeepsStrayBacktick()
    ensures SanitizeOutput("```pythonX````python") == Ok("X`")
    ensures Before(After("```pythonX````python", PythonFence), Fence) == "X"
  {
    var text := "```pythonX````python";
    var rest := "X````python";
    assert text == "" + PythonFence + rest;
    OpeningFenceAt("", rest);
    assert After(text, PythonFence) == rest;
    StrayBacktickCuts();
    SanitizeCuts(text);
  }

  lemma StrayBacktickCuts()
    ensures Before("X````python", PythonFence) == "X`"
    ensures Before("X`", Fence) == "X`"
    ensures Before("X````python", Fence) == "X"
  {
    var rest := "X````python";
    assert rest[0..9][0] != PythonFence[0] && rest[1..10][3] != PythonFence[3];
    assert rest[2..11] == PythonFence;
    FindAt(rest, PythonFence, 2);
    FindAbsent("X`", Fence);
    var f := rest[1..4];
    assert f[0] == '`' && f[1] == '`' && f[2] == '`';
    assert f == Fence;
    assert rest[0..3][0] != Fence[0];
    FindAt(rest, Fence, 1);
  }

  // ---------------------------------------------------------------------
  // The visitor

  /** An `ast.alias` record: the imported name and the optional local name. */
  datatype Alias = Alias(name: string, asname: Option<string>)

  /** The statements the visitor reacts to, in the order of its walk.
      `moduleName` is `None` for a purely relative `from . import x`; the
      relative level is not part of the record because the visitor never
      reads it. */
  datatype Stmt =
    | Import(aliases: seq<Alias>)
    | ImportFrom(moduleName: Option<string>, aliases: seq<Alias>)
    | FunctionDef(name: string, text: string)

  /** The visitor's two fields. */
  datatype Visited = Visited(functions: map<string, string>, imports: seq<string>)

  /** The returned `CodeGraph` record. */
  datatype CodeGraphRecord = CodeGraphRecord(
    name: string,
    codeGraph: string,
    imports: seq<string>,
    functions: map<string, string>)

  /** ` as Y` when the local name is set and non-empty, else nothing. */
  function AsClause(a: Alias): string
  {
    if Truthy(a.asname) then " as " + a.asname.value else ""
  }

  function ImportLine(a: Alias): string
  {
    "import " + a.name + AsClause(a)
  }

  /** An f-string renders a missing module as `None`. */
  function ModuleText(moduleName: Option<string>): string
  {
    if moduleName.Some? then moduleName.value else "None"
  }

  function FromLine(moduleName: Option<string>, a: Alias): string
  {
    "from " + ModuleText(moduleName) + " import " + a.name + AsClause(a)
  }

  /** `visit_Import`: one line per alias, appended in alias order. */
  function VisitImport(imports: seq<string>, aliases: seq<Alias>): (r: seq<string>)
    ensures |r| == |imports| + |aliases|
    ensures r[..|imports|] == imports
    ensures forall k :: 0 <= k < |aliases| ==> r[|imports| + k] == ImportLine(aliases[k])
    decreases |aliases|
  {
    if |aliases| == 0 then imports
    else
      var r := VisitImport(imports + [ImportLine(aliases[0])], aliases[1..]);
      assert r[..|imports|] == r[..|imports| + 1][..|imports|];
      assert forall k :: 0 <= k < |aliases| ==> r[|imports| + k] == ImportLine(aliases[k]) by {
        forall k | 0 <= k < |aliases|
          ensures r[|imports| + k] == ImportLine(aliases[k])
        {
          if k == 0 {
            assert r[|imports|] == (imports + [ImportLine(aliases[0])])[|imports|];
          } else {
            assert aliases[1..][k - 1] == aliases[k];
            assert r[|imports| + 1 + (k - 1)] == ImportLine(aliases[1..][k - 1]);
          }
        }
      }
      r
  }

  /** `visit_ImportFrom`: one line per alias, appended in alias order. */
  function VisitImportFrom(imports: seq<string>, moduleName: Option<string>, aliases: seq<Alias>): (r: seq<string>)
    ensures |r| == |imports| + |aliases|
    ensures r[..|imports|] == imports
    ensures forall k :: 0 <= k < |aliases| ==> r[|imports| + k] == FromLine(moduleName, aliases[k])
    decreases |aliases|
  {
    if |aliases| == 0 then imports
    else
      var r := VisitImportFrom(imports + [FromLine(moduleName, aliases[0])], moduleName, aliases[1..]);
      assert r[..|imports|] == r[..|imports| + 1][..|imports|];
      assert forall k :: 0 <= k < |aliases| ==> r[|imports| + k] == FromLine(moduleName, aliases[k]) by {
        forall k | 0 <= k < |aliases|
          ensures r[|imports| + k] == FromLine(moduleName, aliases[k])
        {
          if k == 0 {
            assert r[|imports|] == (imports + [FromLine(moduleName, aliases[0])])[|imports|];
          } else {
            assert aliases[1..][k - 1] == aliases[k];
            assert r[|imports| + 1 + (k - 1)] == FromLine(moduleName, aliases[1..][k - 1]);
          }
        }
      }
      r
  }

  /** One step of the walk; a later definition of a name replaces an
      earlier one in the dictionary. */
  function VisitStmt(v: Visited, s: Stmt): Visited
  {
    match s
    case Import(aliases) => v.(imports := VisitImport(v.imports, aliases))
    case ImportFrom(moduleName, aliases) => v.(imports := VisitImportFrom(v.imports, moduleName, aliases))
    case FunctionDef(name, text) => v.(functions := v.functions[name := text])
  }

  function Visit(v: Visited, stmts: seq<Stmt>): Visited
    decreases |stmts|
  {
    if |stmts| == 0 then v else Visit(VisitStmt(v, stmts[0]), stmts[1..])
  }

  /** `CodeGraphOutputParser.parse(text)`; `parser` is `ast.parse` with the
      visitor's walk. */
  function Parse(text: string, functionName: string, parser: string -> Result<seq<Stmt>>): (r: Result<CodeGraphRecord>)
    ensures r.Ok? ==> r.value.name == functionName && functionName !in r.value.functions
    ensures !Occurs(text, PythonFence) ==> r == Err(IndexError("list index out of range"))
  {
    match SanitizeOutput(text)
    case Err(e) => Err(e)
    case Ok(code) =>
      match parser(code)
      case Err(e) => Err(e)
      case Ok(stmts) =>
        var v := Visit(Visited(map[], []), stmts);
        if functionName !in v.functions then Err(KeyError(functionName))
        else Ok(CodeGraphRecord(functionName, v.functions[functionName], v.imports, v.functions - {functionName}))
  }

  // ---------------------------------------------------------------------
  // Reference definitions and properties of the visitor

  /** The import lines of a statement. */
  function LinesOf(s: Stmt): seq<string>
  {
    match s
    case Import(aliases) => seq(|aliases|, k requires 0 <= k < |aliases| => ImportLine(aliases[k]))
    case ImportFrom(moduleName, aliases) => seq(|aliases|, k requires 0 <= k < |aliases| => FromLine(moduleName, aliases[k]))
    case FunctionDef(_, _) => []
  }

  /** The import lines of a walk, statement by statement. */
  function ImportsOf(stmts: seq<Stmt>): seq<string>
  {
    if |stmts| == 0 then [] else LinesOf(stmts[0]) + ImportsOf(stmts[1..])
  }

  /** The text of the last definition of `name` in the walk. */
  function LastDef(stmts: seq<Stmt>, name: string): Option<string>
  {
    if |stmts| == 0 then None
    else
      var s := stmts[|stmts| - 1];
      if s.FunctionDef? && s.name == name then Some(s.text) else LastDef(stmts[..|stmts| - 1], name)
  }

  lemma VisitStmtImports(v: Visited, s: Stmt)
    ensures VisitStmt(v, s).imports == v.imports + LinesOf(s)
  {
    match s
    case Import(aliases) =>
      assert VisitStmt(v, s).imports == v.imports + LinesOf(s);
    case ImportFrom(moduleName, aliases) =>
      assert VisitStmt(v, s).imports == v.imports + LinesOf(s);
    case FunctionDef(_, _) =>
  }

  /** The walk records the import lines of its statements in order. */
  lemma {:induction false} VisitImports(v: Visited, stmts: seq<Stmt>)
    ensures Visit(v, stmts).imports == v.imports + ImportsOf(stmts)
    decreases |stmts|
  {
    if |stmts| > 0 {
      var w := VisitStmt(v, stmts[0]);
      VisitStmtImports(v, stmts[0]);
      VisitImports(w, stmts[1..]);
      assert Visit(v, stmts) == Visit(w, stmts[1..]);
      assert ImportsOf(stmts) == LinesOf(stmts[0]) + ImportsOf(stmts[1..]);
      assert (v.imports + LinesOf(stmts[0])) + ImportsOf(stmts[1..]) == v.imports + (LinesOf(stmts[0]) + ImportsOf(stmts[1..]));
    }
  }

  lemma {:induction false} VisitSnoc(v: Visited, stmts: seq<Stmt>, s: Stmt)
    ensures Visit(v, stmts + [s]) == VisitStmt(Visit(v, stmts), s)
    decreases |stmts|
  {
    if |stmts| == 0 {
      assert [s][1..] == [];
    } else {
      assert (stmts + [s])[1..] == stmts[1..] + [s];
      VisitSnoc(VisitStmt(v, stmts[0]), stmts[1..], s);
    }
  }

  /** A name is in the visited dictionary exactly when it was there before
      or is defined in the walk, and its entry is the last definition. */
  lemma {:induction false} VisitFunctions(v: Visited, stmts: seq<Stmt>, name: string)
    ensures var f := Visit(v, stmts).functions;
      && (name in f <==> LastDef(stmts, name).Some? || name in v.functions)
      && (LastDef(stmts, name).Some? ==> f[name] == LastDef(stmts, name).value)
      && (LastDef(stmts, name).None? && name in v.functions ==> f[name] == v.functions[name])
    decreases |stmts|
  {
    if |stmts| > 0 {
      var init := stmts[..|stmts| - 1];
      var s := stmts[|stmts| - 1];
      assert stmts == init + [s];
      VisitSnoc(v, init, s);
      VisitFunctions(v, init, name);
    }
  }

  /** After a successful extraction and parse, the result exists exactly
      when the main function is defined; it then holds the main function's
      last definition, every import line of the walk in order, and every
      other defined function with its last definition.  Otherwise the
      dictionary deletion fails with a key error. */
  lemma ParseResult(text: string, functionName: string, parser: string -> Result<seq<Stmt>>)
    requires SanitizeOutput(text).Ok? && parser(SanitizeOutput(text).value).Ok?
    ensures var stmts := parser(SanitizeOutput(text).value).value;
      var r := Parse(text, functionName, parser);
      && (r.Ok? <==> LastDef(stmts, functionName).Some?)
      && (r.Err? ==> r.error == KeyError(functionName))
      && (r.Ok? ==>
            && r.value.codeGraph == LastDef(stmts, functionName).value
            && r.value.imports == ImportsOf(stmts)
            && forall n :: n in r.value.functions <==> n != functionName && LastDef(stmts, n).Some?)
  {
    var stmts := parser(SanitizeOutput(text).value).value;
    var v0 := Visited(map[], []);
    VisitFunctions(v0, stmts, functionName);
    VisitImports(v0, stmts);
    var f := Visit(v0, stmts).functions;
    forall n
      ensures n in f <==> LastDef(stmts, n).Some?
    {
      VisitFunctions(v0, stmts, n);
    }
  }

  /** Each remaining function carries its last definition's text. */
  lemma ParseFunctionTexts(text: string, functionName: string, parser: string -> Result<seq<Stmt>>, n: string)
    requires SanitizeOutput(text).Ok? && parser(SanitizeOutput(text).value).Ok?
    requires Parse(text, functionName, parser).Ok? && n in Parse(text, functionName, parser).value.functions
    ensures var d := LastDef(parser(SanitizeOutput(text).value).value, n);
      d.Some? && Parse(text, functionName, parser).value.functions[n] == d.value
  {
    var stmts := parser(SanitizeOutput(text).value).value;
    VisitFunctions(Visited(map[], []), stmts, n);
  }

  // ---------------------------------------------------------------------
  // Reading an import line back

  /** The alias as the rendered line shows it: an empty local name is
      dropped like a missing one. */
  function Shown(a: Alias): Alias
  {
    if Truthy(a.asname) then a else Alias(a.name, None)
  }

  predicate Word(s: string)
  {
    ' ' !in s
  }

  /** Reads `import X` or `import X as Y` back into an alias. */
  function ReadImportLine(line: string): Option<Alias>
  {
    var w := Split(line, " ");
    if |w| == 2 && w[0] == "import" then Some(Alias(w[1], None))
    else if |w| == 4 && w[0] == "import" && w[2] == "as" then Some(Alias(w[1], Some(w[3])))
    else None
  }

  /** Reads `from M import X` or `from M import X as Y` back into the
      module text and an alias. */
  function ReadFromLine(line: string): Option<(string, Alias)>
  {
    var w := Split(line, " ");
    if |w| == 4 && w[0] == "from" && w[2] == "import" then Some((w[1], Alias(w[3], None)))
    else if |w| == 6 && w[0] == "from" && w[2] == "import" && w[4] == "as" then Some((w[1], Alias(w[3], Some(w[5]))))
    else None
  }

  /** Words joined by single spaces split back into those words. */
  lemma SplitWords(ws: seq<string>)
    requires |ws| > 0 && forall k :: 0 <= k < |ws| ==> Word(ws[k])
    ensures Split(Join(" ", ws), " ") == ws
  {
    SplitJoin(ws, ' ');
  }

  lemma JoinCons(x: string, xs: seq<string>)
    requires |xs| > 0
    ensures Join(" ", [x] + xs) == x + " " + Join(" ", xs)
  {
    assert ([x] + xs)[1..] == xs;
  }

  /** The words of a rendered alias. */
  lemma AliasWords(a: Alias)
    ensures Truthy(a.asname) ==> Join(" ", [a.name, "as", a.asname.value]) == a.name + AsClause(a)
    ensures !Truthy(a.asname) ==> Join(" ", [a.name]) == a.name + AsClause(a)
  {
    if Truthy(a.asname) {
      JoinCons("as", [a.asname.value]);
      JoinCons(a.name, ["as", a.asname.value]);
    }
  }

  /** An import line names its alias: reading it back gives the alias as
      shown, when the names hold no spaces. */
  lemma ImportLineRoundTrip(a: Alias)
    requires Word(a.name) && (a.asname.Some? ==> Word(a.asname.value))
    ensures ReadImportLine(ImportLine(a)) == Some(Shown(a))
  {
    var tail := if Truthy(a.asname) then [a.name, "as", a.asname.value] else [a.name];
    JoinCons("import", tail);
    AliasWords(a);
    var w := ["import"] + tail;
    assert ImportLine(a) == Join(" ", w);
    assert forall k :: 0 <= k < |w| ==> Word(w[k]);
    SplitWords(w);
    assert Split(ImportLine(a), " ") == w;
  }

  /** The words of a `from` line. */
  function FromWords(m: string, a: Alias): seq<string>
  {
    ["from", m, "import"] + (if Truthy(a.asname) then [a.name, "as", a.asname.value] else [a.name])
  }

  lemma FromLineWords(moduleName: Option<string>, a: Alias)
    ensures FromLine(moduleName, a) == Join(" ", FromWords(ModuleText(moduleName), a))
  {
    var m := ModuleText(moduleName);
    var tail := if Truthy(a.asname) then [a.name, "as", a.asname.value] else [a.name];
    AliasWords(a);
    FromJoin(m, tail);
    assert FromWords(m, a) == ["from"] + ([m] + (["import"] + tail));
  }

  lemma FromJoin(m: string, tail: seq<string>)
    requires |tail| > 0
    ensures Join(" ", ["from"] + ([m] + (["import"] + tail))) == "from " + m + " import " + Join(" ", tail)
  {
    JoinCons("import", tail);
    JoinCons(m, ["import"] + tail);
    JoinCons("from", [m] + (["import"] + tail));
    FromRegroup(m, Join(" ", tail));
  }

  lemma FromRegroup(m: string, j: string)
    ensures "from" + " " + (m + " " + ("import" + " " + j)) == "from " + m + " import " + j
  {
    var sp := " ";
    assert "from" + sp == "from ";
    assert sp + "import" + sp == " import ";
  }

  /** A `from` line names its module and alias: reading it back gives the
      module text and the alias as shown, when the names hold no spaces. */
  lemma FromLineRoundTrip(moduleName: Option<string>, a: Alias)
    requires Word(ModuleText(moduleName)) && Word(a.name) && (a.asname.Some? ==> Word(a.asname.value))
    ensures ReadFromLine(FromLine(moduleName, a)) == Some((ModuleText(moduleName), Shown(a)))
  {
    var w := FromWords(ModuleText(moduleName), a);
    FromLineWords(moduleName, a);
    assert forall k :: 0 <= k < |w| ==> Word(w[k]);
    SplitWords(w);
  }
}
