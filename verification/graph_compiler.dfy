/** `compile_graph` and `convert_graph_to_code` (codex/compile.py): the
    route function's name derived from the execution path, the node
    implementations' code placed before the generated orchestration
    function, and the requirements manifest of all their packages.
 */
module GraphCompiler {
  import opened Basics
  import opened Text
  import opened GraphModel
  import opened Emitter
  import opened Linearizer
  import opened Requirements

  /** The execution path a graph was designed for. */
  datatype ExecutionPath = ExecutionPath(name: string, endpointName: string)

  /** A stored node implementation: its code and the packages it needs. */
  datatype NodeImpl = NodeImpl(code: Option<string>, requiredPackages: seq<RequiredPackage>)

  /** What `compile_graph` returns. */
  datatype FunctionData = FunctionData(
    functionName: string,
    code: string,
    requirementsTxt: string,
    endpointName: string,
    graph: NodeGraph)

  const RouteSuffix: string := "_request"

  /** `name.strip().replace(" ", "_").replace("-", "_").replace("/", "").lower() + "_request"`. */
  function RouteFunctionName(name: string): string
  {
    Lower(ReplaceAll(ReplaceAll(ReplaceAll(Strip(name), " ", "_"), "-", "_"), "/", "")) + RouteSuffix
  }

  /** `convert_graph_to_code`: linearize, then emit. */
  function ConvertGraphToCode(g: NodeGraph, functionName: string): Result<string>
  {
    GraphToCode(PreProcessNodes(g), functionName)
  }

  /** The `python_file += f"\n\n{node.code}"` loop over the implementations
      that carry code. */
  function NodeCode(impls: seq<NodeImpl>): string
    decreases |impls|
  {
    if |impls| == 0 then ""
    else (if Truthy(impls[0].code) then "\n\n" + impls[0].code.value else "") + NodeCode(impls[1..])
  }

  /** The `requirements.extend(node.required_packages)` loop. */
  function AllPackages(impls: seq<NodeImpl>): seq<RequiredPackage>
    decreases |impls|
  {
    if |impls| == 0 then [] else impls[0].requiredPackages + AllPackages(impls[1..])
  }

  /** `compile_graph(graph, node_implementations, ep)`. */
  function CompileGraph(g: NodeGraph, impls: seq<NodeImpl>, ep: ExecutionPath): Result<FunctionData>
  {
    var functionName := RouteFunctionName(ep.name);
    match ConvertGraphToCode(g, functionName)
    case Err(e) => Err(e)
    case Ok(script) =>
      Ok(FunctionData(functionName, NodeCode(impls) + "\n\n" + script,
                      GenerateRequirementsTxt(AllPackages(impls)), ep.endpointName, g))
  }

  // ---------------------------------------------------------------------
  // The route name

  /** What one character of the stripped name becomes: space and `-` turn
      into `_`, `/` disappears, ASCII capitals are lowered. */
  function RouteChar(c: char): string
  {
    if c == ' ' || c == '-' then "_" else if c == '/' then "" else [LowerChar(c)]
  }

  /** The reference character-by-character canonicalisation. */
  function Canon(s: string): string
  {
    if |s| == 0 then "" else RouteChar(s[0]) + Canon(s[1..])
  }

  /** A string that canonicalisation leaves alone: no space, `-`, `/` or
      ASCII capital. */
  predicate Canonical(s: string)
  {
    forall i :: 0 <= i < |s| ==> s[i] != ' ' && s[i] != '-' && s[i] != '/' && !IsUpper(s[i])
  }

  lemma RouteCharSteps(c: char)
    ensures Lower(ReplaceAll(ReplaceAll(ReplaceAll([c], " ", "_"), "-", "_"), "/", "")) == RouteChar(c)
  {
    ReplaceCharCons([c], ' ', "_");
    var a := ReplaceAll([c], " ", "_");
    assert a == (if c == ' ' then "_" else [c]);
    ReplaceCharCons(a, '-', "_");
    var b := ReplaceAll(a, "-", "_");
    assert b == (if c == ' ' || c == '-' then "_" else [c]);
    ReplaceCharCons(b, '/', "");
    var d := ReplaceAll(b, "/", "");
    assert d == (if c == ' ' || c == '-' then "_" else if c == '/' then "" else [c]);
  }

  lemma {:induction false} CanonIsReplaceChain(s: string)
    ensures Lower(ReplaceAll(ReplaceAll(ReplaceAll(s, " ", "_"), "-", "_"), "/", "")) == Canon(s)
    decreases |s|
  {
    if |s| > 0 {
      var h := [s[0]];
      var t := s[1..];
      assert s == h + t;
      ReplaceCharAppend(h, t, ' ', "_");
      var a1, a2 := ReplaceAll(h, " ", "_"), ReplaceAll(t, " ", "_");
      ReplaceCharAppend(a1, a2, '-', "_");
      var b1, b2 := ReplaceAll(a1, "-", "_"), ReplaceAll(a2, "-", "_");
      ReplaceCharAppend(b1, b2, '/', "");
      var d1, d2 := ReplaceAll(b1, "/", ""), ReplaceAll(b2, "/", "");
      LowerAppend(d1, d2);
      RouteCharSteps(s[0]);
      CanonIsReplaceChain(t);
    }
  }

  /** The route function name is the stripped endpoint name, canonicalised
      character by character, followed by `_request`. */
  lemma RouteFunctionNameSpec(name: string)
    ensures RouteFunctionName(name) == Canon(Strip(name)) + RouteSuffix
  {
    CanonIsReplaceChain(Strip(name));
  }

  lemma {:induction false} CanonClean(s: string)
    ensures Canonical(Canon(s))
    decreases |s|
  {
    if |s| > 0 {
      CanonClean(s[1..]);
      var r := RouteChar(s[0]);
      assert Canonical(r) by {
        if |r| == 1 && r != "_" {
          assert r[0] == LowerChar(s[0]);
        }
      }
      var c := Canon(s);
      assert c == r + Canon(s[1..]);
      forall i | 0 <= i < |c|
        ensures c[i] != ' ' && c[i] != '-' && c[i] != '/' && !IsUpper(c[i])
      {
        if i >= |r| {
          assert c[i] == Canon(s[1..])[i - |r|];
        }
      }
    }
  }

  lemma {:induction false} CanonIdentity(s: string)
    requires Canonical(s)
    ensures Canon(s) == s
    decreases |s|
  {
    if |s| > 0 {
      assert Canonical(s[1..]) by {
        forall i | 0 <= i < |s[1..]|
          ensures s[1..][i] == s[i + 1]
        {
        }
      }
      CanonIdentity(s[1..]);
      assert s == [s[0]] + s[1..];
    }
  }

  /** The route function name never contains a space, `-`, `/` or an ASCII
      capital, and ends with `_request`. */
  lemma RouteFunctionNameClean(name: string)
    ensures Canonical(RouteFunctionName(name))
    ensures var r := RouteFunctionName(name);
      |r| >= |RouteSuffix| && r[|r| - |RouteSuffix|..] == RouteSuffix
  {
    RouteFunctionNameSpec(name);
    CanonClean(Strip(name));
    SuffixCanonical();
    CanonicalAppend(Canon(Strip(name)), RouteSuffix);
    EndsWithAppended(Canon(Strip(name)), RouteSuffix);
  }

  lemma SuffixCanonical()
    ensures Canonical(RouteSuffix)
  {
    var s := RouteSuffix;
    forall i | 0 <= i < |s|
      ensures s[i] != ' ' && s[i] != '-' && s[i] != '/' && !IsUpper(s[i])
    {
    }
  }

  lemma CanonicalAppend(a: string, b: string)
    requires Canonical(a) && Canonical(b)
    ensures Canonical(a + b)
  {
    var r := a + b;
    forall i | 0 <= i < |r|
      ensures r[i] != ' ' && r[i] != '-' && r[i] != '/' && !IsUpper(r[i])
    {
      if i >= |a| {
        assert r[i] == b[i - |a|];
      }
    }
  }

  lemma EndsWithAppended(a: string, b: string)
    ensures |a + b| >= |b| && (a + b)[|a + b| - |b|..] == b
  {
    assert (a + b)[|a|..] == b;
  }

  /** A name that is already canonical and has no surrounding whitespace
      only gets the suffix. */
  lemma RouteFunctionNameOfCanonical(name: string)
    requires Canonical(name)
    requires |name| > 0 ==> !IsSpace(name[0]) && !IsSpace(name[|name| - 1])
    ensures RouteFunctionName(name) == name + RouteSuffix
  {
    StripUnchanged(name);
    RouteFunctionNameSpec(name);
    CanonIdentity(name);
  }

  // ---------------------------------------------------------------------
  // The assembled file

  lemma {:induction false} NodeCodeAppend(a: seq<NodeImpl>, b: seq<NodeImpl>)
    ensures NodeCode(a + b) == NodeCode(a) + NodeCode(b)
    decreases |a|
  {
    if |a| == 0 {
      assert a + b == b;
    } else {
      assert (a + b)[1..] == a[1..] + b;
      NodeCodeAppend(a[1..], b);
    }
  }

  lemma {:induction false} AllPackagesAppend(a: seq<NodeImpl>, b: seq<NodeImpl>)
    ensures AllPackages(a + b) == AllPackages(a) + AllPackages(b)
    decreases |a|
  {
    if |a| == 0 {
      assert a + b == b;
    } else {
      assert (a + b)[1..] == a[1..] + b;
      AllPackagesAppend(a[1..], b);
    }
  }

  /** Each implementation contributes its own code, after a blank line,
      when it has non-empty code and nothing otherwise; the contributions
      keep the implementations' order. */
  lemma NodeCodeContributions(impls: seq<NodeImpl>, impl: NodeImpl)
    ensures NodeCode(impls + [impl]) ==
      NodeCode(impls) + (if Truthy(impl.code) then "\n\n" + impl.code.value else "")
    ensures AllPackages(impls + [impl]) == AllPackages(impls) + impl.requiredPackages
  {
    NodeCodeAppend(impls, [impl]);
    AllPackagesAppend(impls, [impl]);
    assert [impl][1..] == [];
  }

  /** `compile_graph` fails exactly when some linearized statement cannot
      be rendered; otherwise the file is the implementations' code followed
      by a blank line and the generated function, the manifest covers the
      packages of every implementation in order, and the name and endpoint
      come from the execution path. */
  lemma CompileGraphResult(g: NodeGraph, impls: seq<NodeImpl>, ep: ExecutionPath)
    ensures var cs := PreProcessNodes(g);
      CompileGraph(g, impls, ep).Err? <==> exists k :: 0 <= k < |cs| && Render(cs[k]).Err?
    ensures var r := CompileGraph(g, impls, ep);
      r.Ok? ==>
        && r.value.functionName == Canon(Strip(ep.name)) + RouteSuffix
        && r.value.code == NodeCode(impls) + "\n\n" + ConvertGraphToCode(g, r.value.functionName).value
        && r.value.requirementsTxt == GenerateRequirementsTxt(AllPackages(impls))
        && r.value.endpointName == ep.endpointName
        && r.value.graph == g
  {
    GraphToCodeFails(PreProcessNodes(g), RouteFunctionName(ep.name));
    RouteFunctionNameSpec(ep.name);
  }
}
