/** The text of the FastAPI server module that `create_server_code`
    (codex/develop/compile.py) writes for a completed application: the
    imports, a fixed header, and one endpoint per compiled route.  The
    final sorting of imports and reformatting are not modelled; the result
    holds the text as assembled before them.
 */
module ServerCode {
  import opened Basics
  import opened Text
  import opened ObjectTypes
  import opened TreeLinker

  /** The API route a compiled route serves, with its request and response
      types. */
  datatype ApiRouteSpec = ApiRouteSpec(
    id: string,
    verb: string,
    path: string,
    requestObject: Option<ObjectType>,
    responseObject: Option<ObjectType>)

  /** A stored compiled route. */
  datatype CompiledRoute = CompiledRoute(
    id: string,
    fileName: string,
    mainFunctionName: string,
    packages: seq<Package>,
    apiRouteSpec: Option<ApiRouteSpec>)

  datatype CompletedApp = CompletedApp(name: string, description: string, compiledRoutes: Option<seq<CompiledRoute>>)

  /** The application returned, with the server text before formatting. */
  datatype Application = Application(name: string, description: string, serverCode: string, packages: seq<Package>)

  /** What the loop takes from one accepted route: its file name, its API
      route spec, its main function, the request fields, the response type
      and its packages. */
  datatype RoutePart = RoutePart(
    fileName: string,
    spec: ApiRouteSpec,
    mainFunctionName: string,
    request: seq<ObjectField>,
    response: ObjectType,
    packages: seq<Package>)

  const BaseImports: seq<string> := [
    "from fastapi import FastAPI",
    "from fastapi.responses import JSONResponse",
    "import logging",
    "import io",
    "from typing import *"]

  const JsonResponse: string := "return JSONResponse(content=response)"

  const StreamingResponseText: string :=
    "\n    # Convert the bytes to a BytesIO object for streaming\n    file_stream = io.BytesIO(response)\n\n"
    + "    # Set the correct content-type for zip files\n    headers = {\n"
    + "        \"Content-Disposition\": f\"attachment; filename=\"new_file.zip\"\"\n    }\n\n"
    + "    # Return the streaming response\n    return StreamingResponse(\n"
    + "        content=file_stream, media_type=\"application/zip\", headers=headers\n    )\n"

  function Header(name: string, description: string): string
  {
    "logger = logging.getLogger(__name__)\n\napp = FastAPI(title=\"" + name + "\", description='''" + description + "''')"
  }

  /** The endpoint function's name: the lower-cased method, the service's
      main function and `_route`. */
  function RouteName(verb: string, mainFunctionName: string): string
  {
    Lower(verb) + "_" + mainFunctionName + "_route"
  }

  function ParamNames(fs: seq<ObjectField>): (r: seq<string>)
    ensures |r| == |fs|
    ensures forall k :: 0 <= k < |fs| ==> r[k] == fs[k].name
  {
    seq(|fs|, k requires 0 <= k < |fs| => fs[k].name)
  }

  function ParamDecls(fs: seq<ObjectField>): (r: seq<string>)
    ensures |r| == |fs|
    ensures forall k :: 0 <= k < |fs| ==> r[k] == fs[k].name + ": " + fs[k].typeName
  {
    seq(|fs|, k requires 0 <= k < |fs| => fs[k].name + ": " + fs[k].typeName)
  }

  /** The response statement: a streaming response when the response type's
      first field is `bytes`, a JSON response otherwise. */
  function ResponseType(response: ObjectType): string
  {
    if response.fields.Fields? && |response.fields.items| > 0 && response.fields.items[0].typeName == "bytes"
    then StreamingResponseText
    else JsonResponse
  }

  function DecoratorLine(verb: string, path: string): string
  {
    "@app." + Lower(verb) + "(\"" + path + "\")"
  }

  function DefLine(verb: string, mainFunctionName: string, request: seq<ObjectField>): string
  {
    "async def " + RouteName(verb, mainFunctionName) + "(" + Join(", ", ParamDecls(request)) + "):"
  }

  /** The endpoint body after the `async def` line: the call of the main
      function with the parameter names, the error handler, and the
      response statement. */
  function RouteBody(mainFunctionName: string, request: seq<ObjectField>, response: ObjectType): string
  {
    "    try:\n        response = " + mainFunctionName + "(" + Join(", ", ParamNames(request)) + ")\n"
    + "    except Exception as e:\n        logger.exception(\"Error processing request\")\n"
    + "        response = dict()\n        response[\"error\"] =  str(e)\n"
    + "        return JSONResponse(content=response)\n"
    + "    " + ResponseType(response) + "\n"
  }

  /** The endpoint text of one route. */
  function RouteCode(spec: ApiRouteSpec, mainFunctionName: string, request: seq<ObjectField>, response: ObjectType): string
  {
    DecoratorLine(spec.verb, spec.path) + "\n" + DefLine(spec.verb, mainFunctionName, request) + "\n"
    + RouteBody(mainFunctionName, request, response)
  }

  /** The service import of a route: its file name without `.py`. */
  function ServiceImport(fileName: string): string
  {
    "from " + ReplaceAll(fileName, ".py", "") + " import *"
  }

  /** A route the loop accepts: it has an API route spec with a request
      and a response type, and the request type has a field list. */
  predicate RouteValid(r: CompiledRoute)
  {
    && r.apiRouteSpec.Some?
    && r.apiRouteSpec.value.requestObject.Some?
    && r.apiRouteSpec.value.responseObject.Some?
    && r.apiRouteSpec.value.requestObject.value.fields.Fields?
  }

  /** One iteration of the `for compiled_route in CompiledRoutes` loop. */
  function ProcessRoute(r: CompiledRoute): (res: Result<RoutePart>)
    ensures res.Ok? <==> RouteValid(r)
    ensures res.Ok? ==> res.value.fileName == r.fileName && res.value.packages == r.packages
  {
    if r.apiRouteSpec.None? then Err(ValueError("Compiled route " + r.id + " has no APIRouteSpec"))
    else
      var spec := r.apiRouteSpec.value;
      if spec.requestObject.None? then Err(AssertionError("RequestObject is required for " + r.id))
      else if spec.responseObject.None? then Err(AssertionError("ResponseObject is required for " + r.id))
      else
        var request := spec.requestObject.value;
        if request.fields.NoFields? then Err(AssertionError("RequestObject " + request.id + " has no Fields"))
        else
          Ok(RoutePart(r.fileName, spec, r.mainFunctionName, request.fields.items, spec.responseObject.value, r.packages))
  }

  /** The loop over all routes; the first failing route aborts it. */
  function ProcessRoutes(rs: seq<CompiledRoute>): (res: Result<seq<RoutePart>>)
    ensures res.Ok? ==> |res.value| == |rs|
  {
    if |rs| == 0 then Ok([])
    else
      match ProcessRoute(rs[0])
      case Err(e) => Err(e)
      case Ok(p) =>
        match ProcessRoutes(rs[1..])
        case Err(e) => Err(e)
        case Ok(rest) => Ok([p] + rest)
  }

  function Imports(ps: seq<RoutePart>): (r: seq<string>)
    ensures |r| == |ps|
    ensures forall k :: 0 <= k < |ps| ==> r[k] == ServiceImport(ps[k].fileName)
  {
    seq(|ps|, k requires 0 <= k < |ps| => ServiceImport(ps[k].fileName))
  }

  function Routes(ps: seq<RoutePart>): (r: seq<string>)
    ensures |r| == |ps|
    ensures forall k :: 0 <= k < |ps| ==> r[k] == RouteCode(ps[k].spec, ps[k].mainFunctionName, ps[k].request, ps[k].response)
  {
    seq(|ps|, k requires 0 <= k < |ps| => RouteCode(ps[k].spec, ps[k].mainFunctionName, ps[k].request, ps[k].response))
  }

  function PartPackages(ps: seq<RoutePart>): seq<Package>
  {
    if |ps| == 0 then [] else ps[0].packages + PartPackages(ps[1..])
  }

  /** The module text: the import lines, a blank line, then the rest. */
  function ServerText(imports: seq<string>, rest: string): string
  {
    Join("\n", imports) + "\n\n" + rest
  }

  /** What follows the imports: the application header and the route
      functions, separated by blank lines. */
  function ServerBody(name: string, description: string, parts: seq<RoutePart>): string
  {
    Header(name, description) + "\n\n" + Join("\n\n", Routes(parts))
  }

  /** `create_server_code(completed_app)`, up to the formatting step. */
  function CreateServerCode(app: CompletedApp): Result<Application>
  {
    if app.compiledRoutes.None? then Err(ValueError("Application must have at least one compiled route."))
    else
      match ProcessRoutes(app.compiledRoutes.value)
      case Err(e) => Err(e)
      case Ok(parts) =>
        var text := ServerText(BaseImports + Imports(parts), ServerBody(app.name, app.description, parts));
        Ok(Application(app.name, app.description, text, PartPackages(parts)))
  }

  // ---------------------------------------------------------------------
  // Properties

  function RoutePackages(rs: seq<CompiledRoute>): seq<Package>
  {
    if |rs| == 0 then [] else rs[0].packages + RoutePackages(rs[1..])
  }

  /** The route loop succeeds exactly when every route is valid. */
  lemma {:induction false} ProcessRoutesOk(rs: seq<CompiledRoute>)
    ensures ProcessRoutes(rs).Ok? <==> forall k :: 0 <= k < |rs| ==> RouteValid(rs[k])
  {
    if |rs| > 0 {
      ProcessRoutesOk(rs[1..]);
      if forall k :: 0 <= k < |rs| ==> RouteValid(rs[k]) {
        forall k | 0 <= k < |rs[1..]|
          ensures RouteValid(rs[1..][k])
        {
          assert rs[1..][k] == rs[k + 1];
        }
      } else if ProcessRoute(rs[0]).Ok? {
        var k :| 0 <= k < |rs| && !RouteValid(rs[k]);
        assert rs[1..][k - 1] == rs[k];
      }
    }
  }

  /** A failing route loop reports the error of the first invalid route. */
  lemma {:induction false} ProcessRoutesFirstError(rs: seq<CompiledRoute>)
    requires ProcessRoutes(rs).Err?
    ensures exists k :: && 0 <= k < |rs| && !RouteValid(rs[k])
                        && (forall j :: 0 <= j < k ==> RouteValid(rs[j]))
                        && ProcessRoutes(rs).error == ProcessRoute(rs[k]).error
  {
    if ProcessRoute(rs[0]).Ok? {
      var t := rs[1..];
      assert ProcessRoutes(t).Err? && ProcessRoutes(rs).error == ProcessRoutes(t).error;
      ProcessRoutesFirstError(t);
      var k :| 0 <= k < |t| && !RouteValid(t[k]) && (forall j :: 0 <= j < k ==> RouteValid(t[j]))
        && ProcessRoutes(t).error == ProcessRoute(t[k]).error;
      FirstErrorStep(rs, k);
    } else {
      assert ProcessRoutes(rs).error == ProcessRoute(rs[0]).error;
      assert !RouteValid(rs[0]);
    }
  }

  lemma FirstErrorStep(rs: seq<CompiledRoute>, k: nat)
    requires k + 1 < |rs| && RouteValid(rs[0]) && !RouteValid(rs[1..][k])
    requires forall j :: 0 <= j < k ==> RouteValid(rs[1..][j])
    ensures !RouteValid(rs[k + 1]) && rs[k + 1] == rs[1..][k]
    ensures forall j :: 0 <= j < k + 1 ==> RouteValid(rs[j])
  {
    forall j | 0 <= j < k + 1
      ensures RouteValid(rs[j])
    {
      if j > 0 {
        assert rs[j] == rs[1..][j - 1];
      }
    }
  }

  /** A successful route loop keeps the routes' order and their packages. */
  lemma {:induction false} ProcessRoutesElements(rs: seq<CompiledRoute>)
    requires ProcessRoutes(rs).Ok?
    ensures forall k :: 0 <= k < |rs| ==> ProcessRoute(rs[k]).Ok? && ProcessRoutes(rs).value[k] == ProcessRoute(rs[k]).value
    ensures PartPackages(ProcessRoutes(rs).value) == RoutePackages(rs)
  {
    if |rs| > 0 {
      var t := rs[1..];
      ProcessRoutesElements(t);
      var ps := ProcessRoutes(rs).value;
      assert ps == [ProcessRoute(rs[0]).value] + ProcessRoutes(t).value;
      assert ps[1..] == ProcessRoutes(t).value;
      forall k | 1 <= k < |rs|
        ensures ProcessRoute(rs[k]).Ok? && ps[k] == ProcessRoute(rs[k]).value
      {
        assert rs[k] == t[k - 1];
      }
    }
  }

  /** The server code exists exactly when the application has a route
      list and every route is valid; the packages are those of the routes
      in order, without removing repeats. */
  lemma CreateServerCodeResult(app: CompletedApp)
    ensures app.compiledRoutes.None? ==>
      CreateServerCode(app) == Err(ValueError("Application must have at least one compiled route."))
    ensures CreateServerCode(app).Ok? <==>
      app.compiledRoutes.Some? && forall k :: 0 <= k < |app.compiledRoutes.value| ==> RouteValid(app.compiledRoutes.value[k])
    ensures CreateServerCode(app).Ok? ==>
      && CreateServerCode(app).value.packages == RoutePackages(app.compiledRoutes.value)
      && CreateServerCode(app).value.name == app.name
  {
    if app.compiledRoutes.Some? {
      ProcessRoutesOk(app.compiledRoutes.value);
      if ProcessRoutes(app.compiledRoutes.value).Ok? {
        ProcessRoutesElements(app.compiledRoutes.value);
      }
    }
  }

  /** The server module starts with the fixed imports and then one
      service import per route, in route order, each on its own line
      (when no route's file name holds a line break). */
  lemma ServerCodeImports(app: CompletedApp)
    requires CreateServerCode(app).Ok?
    requires forall k :: 0 <= k < |app.compiledRoutes.value| ==> '\n' !in app.compiledRoutes.value[k].fileName
    ensures var rs := app.compiledRoutes.value;
      var lines := Split(CreateServerCode(app).value.serverCode, "\n");
      && |lines| > |BaseImports| + |rs|
      && lines[..|BaseImports|] == BaseImports
      && forall k :: 0 <= k < |rs| ==> lines[|BaseImports| + k] == ServiceImport(rs[k].fileName)
  {
    var rs := app.compiledRoutes.value;
    ProcessRoutesElements(rs);
    var parts := ProcessRoutes(rs).value;
    forall k | 0 <= k < |parts|
      ensures parts[k].fileName == rs[k].fileName
    {
      assert parts[k] == ProcessRoute(rs[k]).value;
    }
    var rest := ServerBody(app.name, app.description, parts);
    assert CreateServerCode(app).value.serverCode == ServerText(BaseImports + Imports(parts), rest);
    ServerTextImports(parts, rest);
  }

  lemma ServerTextImports(parts: seq<RoutePart>, rest: string)
    requires forall k :: 0 <= k < |parts| ==> '\n' !in parts[k].fileName
    ensures var all := Split(ServerText(BaseImports + Imports(parts), rest), "\n");
      && |all| > |BaseImports| + |parts|
      && all[..|BaseImports|] == BaseImports
      && forall k :: 0 <= k < |parts| ==> all[|BaseImports| + k] == ServiceImport(parts[k].fileName)
  {
    var lines := BaseImports + Imports(parts);
    ImportLinesNoBreak(parts);
    ServerTextLines(lines, rest);
    var all := Split(ServerText(lines, rest), "\n");
    PrefixParts(all, BaseImports, Imports(parts));
  }

  lemma PrefixParts<T>(all: seq<T>, a: seq<T>, b: seq<T>)
    requires |all| > |a + b| && all[..|a + b|] == a + b
    ensures all[..|a|] == a
    ensures forall k :: 0 <= k < |b| ==> all[|a| + k] == b[k]
  {
    assert all[..|a|] == all[..|a + b|][..|a|];
    forall k | 0 <= k < |b|
      ensures all[|a| + k] == b[k]
    {
      assert all[|a| + k] == all[..|a + b|][|a| + k];
    }
  }

  lemma ImportLinesNoBreak(parts: seq<RoutePart>)
    requires forall k :: 0 <= k < |parts| ==> '\n' !in parts[k].fileName
    ensures forall k :: 0 <= k < |BaseImports + Imports(parts)| ==> '\n' !in (BaseImports + Imports(parts))[k]
  {
    var lines := BaseImports + Imports(parts);
    BaseImportsNoBreak();
    forall k | 0 <= k < |lines|
      ensures '\n' !in lines[k]
    {
      if k >= |BaseImports| {
        var i := k - |BaseImports|;
        assert lines[k] == ServiceImport(parts[i].fileName);
        NoBreakAfterReplace(parts[i].fileName, ".py", "");
      } else {
        assert lines[k] == BaseImports[k];
      }
    }
  }

  lemma BaseImportsNoBreak()
    ensures forall k :: 0 <= k < |BaseImports| ==> '\n' !in BaseImports[k]
  {
    forall k | 0 <= k < |BaseImports|
      ensures '\n' !in BaseImports[k]
    {
      var s := BaseImports[k];
      forall i | 0 <= i < |s|
        ensures s[i] != '\n'
      {
      }
    }
  }

  /** The import lines come back as the first lines of the module text. */
  lemma ServerTextLines(imports: seq<string>, rest: string)
    requires |imports| > 0
    requires forall k :: 0 <= k < |imports| ==> '\n' !in imports[k]
    ensures var all := Split(ServerText(imports, rest), "\n");
      |all| > |imports| && all[..|imports|] == imports
  {
    var tail := "\n" + rest;
    assert ServerText(imports, rest) == Join("\n", imports) + "\n" + tail;
    SplitJoinPrefix(imports, '\n', tail);
  }

  lemma {:induction false} NoBreakAfterReplace(s: string, target: string, repl: string)
    requires '\n' !in s && '\n' !in repl && |target| > 0
    ensures '\n' !in ReplaceAll(s, target, repl)
    decreases |s|
  {
    if |s| >= |target| {
      if s[..|target|] == target {
        NoBreakAfterReplace(s[|target|..], target, repl);
      } else {
        NoBreakAfterReplace(s[1..], target, repl);
      }
    }
  }

  /** The first two lines of an endpoint are the decorator with the
      lower-cased method and the path, and the `async def` line with the
      route name and the request parameters `name: type`, separated by
      `", "` (when the path and the parameter declarations hold no line
      break). */
  lemma RouteCodeHead(spec: ApiRouteSpec, main: string, request: seq<ObjectField>, response: ObjectType)
    requires '\n' !in spec.path && '\n' !in spec.verb && '\n' !in main
    requires '\n' !in Join(", ", ParamDecls(request))
    ensures var lines := Split(RouteCode(spec, main, request, response), "\n");
      && |lines| >= 2
      && lines[0] == "@app." + Lower(spec.verb) + "(\"" + spec.path + "\")"
      && lines[1] == "async def " + RouteName(spec.verb, main) + "(" + Join(", ", ParamDecls(request)) + "):"
  {
    var d := DecoratorLine(spec.verb, spec.path);
    var e := DefLine(spec.verb, main, request);
    LowerNoBreak(spec.verb);
    NoBreakConcat5("@app.", Lower(spec.verb), "(\"", spec.path, "\")");
    NoBreakConcat5("async def ", RouteName(spec.verb, main), "(", Join(", ", ParamDecls(request)), "):");
    FirstTwoLines(d, e, RouteBody(main, request, response));
  }

  /** An endpoint streams its response exactly when the response type's
      first field has type `bytes`; every other endpoint, including one whose
      response type has no fields, returns JSON. */
  lemma ResponseTypeStreams(response: ObjectType)
    ensures ResponseType(response) == StreamingResponseText <==>
      response.fields.Fields? && |response.fields.items| > 0 && response.fields.items[0].typeName == "bytes"
    ensures ResponseType(response) == StreamingResponseText || ResponseType(response) == JsonResponse
  {
    assert |JsonResponse| < |StreamingResponseText|;
  }

  lemma NoBreakConcat5(a: string, b: string, c: string, d: string, e: string)
    requires '\n' !in a && '\n' !in b && '\n' !in c && '\n' !in d && '\n' !in e
    ensures '\n' !in a + b + c + d + e
  {
  }

  lemma LowerNoBreak(s: string)
    requires '\n' !in s
    ensures '\n' !in Lower(s)
  {
    forall i | 0 <= i < |s|
      ensures Lower(s)[i] != '\n'
    {
      assert s[i] != '\n';
    }
  }
}
