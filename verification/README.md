# Code assembly core, modelled in Dafny

This project models the code-assembly core of the Codex application
generator. It covers three parts.

- **The graph compiler** (`codex/compile.py`). A node graph (start, if,
  action and end nodes) becomes a Python function. `pre_process_nodes`
  linearises the graph into indented code lines. It finds each branch's
  merge point with `find_common_descendent` and walks each arm with
  `process_if_paths`. `CodeableNode.__str__` renders each line and
  `graph_to_code` lays the lines out. `compile_graph` derives the route
  function name from the execution path's name. It prepends the node
  implementations and builds the requirements manifest with
  `generate_requirements_txt`.
- **The fragment-tree linker** (`codex/develop/compile.py`).
  - `recursive_compile_route` links a function tree. Children come first,
    then the parent's own code. Each link is syntax-checked.
  - `process_object_type` and `process_object_field` expand structured
    argument and return types into pydantic class declarations. A set of
    already-emitted type ids is threaded through.
  - `compile_route` assembles one service file.
  - `create_server_code` assembles the FastAPI server module from all
    compiled routes.
- **The parsing helpers of the code-graph chain** (`codex/chains/code_graph.py`).
  - `_sanitize_output` cuts the fenced Python block out of a model reply.
  - The AST visitor records import lines and function definitions.
  - `parse` splits the visited functions into the main function and the
    stubs it calls.

Exceptions become a `Result`. Its error names the Python exception class
and carries the message text the source builds. The modules follow the
source:

| module | file | models |
|---|---|---|
| `Basics` | basics.dfy | `Option`, `Result`, the raised exception classes, Python truthiness of optional strings |
| `Text` | text.dfy | `join`, `find`, `split`, `replace`, `strip`, `lower`, `s * n`, `s[:-n]` with Python's semantics |
| `GraphModel` | graph_model.dfy | nodes, parameters, else-if clauses, node graphs, codeable nodes |
| `Emitter` | emitter.dfy | `CodeableNode.__str__`, `graph_to_code` |
| `Linearizer` | linearizer.dfy | `find_common_descendent`, `process_if_paths`, `pre_process_nodes` |
| `Requirements` | requirements.dfy | `generate_requirements_txt` |
| `GraphCompiler` | graph_compiler.dfy | `compile_graph`, `convert_graph_to_code` |
| `ObjectTypes` | object_types.dfy | `process_object_type`, `process_object_field` |
| `TreeLinker` | tree_linker.dfy | `recursive_compile_route`, `compile_route` |
| `ServerCode` | server_code.dfy | `create_server_code` up to formatting |
| `CodeGraph` | code_graph.dfy | `_sanitize_output`, `visit_Import`, `visit_ImportFrom`, `parse` |

### Quirks the model keeps

The model reproduces the code as written, including the behaviours
listed here that a reader of the code might not expect. The lemmas named
below make each one visible.

- **Merge points follow list order, not reachability.** The merge point
  is the first later node in the list that some earlier node (after the
  branch) names as its successor. That node need not be reachable from
  the branch (`Linearizer.MergeGuessFollowsListOrder`). Arms are
  collected by scanning the node list in order. Cycles and unreachable
  merges are not detected.
- **A node can be emitted twice.** Arms are collected by scanning the
  whole node list, so an arm also picks up nodes listed before the `if`.
  Only nodes after the `if` are skipped by the main loop. A node listed
  earlier is therefore emitted both at top level and inside the arm
  (`Linearizer.NodeEmittedTwice`).
- **Shared types can be declared twice.** Each call of
  `recursive_compile_route` starts a fresh emitted-type set. A composite
  function discards the models of its own arguments and keeps only its
  children's models, so two children declare a shared type twice
  (`TreeLinker.CompositeIgnoresOwnModels`,
  `TreeLinker.SiblingsRepeatModels`). Within one function, a type that
  sits below an already emitted type is not marked as emitted, so a later
  field of that type still declares it (`TreeLinker.NestedIdNotShared`).
- **Syntax-error messages differ by function kind.** A leaf reports the
  whole checked text, imports included. A composite reports only the
  accumulated code, not the imports it checked.
- **Route names can collide.** The uuid suffix in `create_server_code` is
  unreachable: the name set is only added to inside the branch that
  requires membership. Two routes with the same method and main function
  therefore get the same endpoint name.
- **A stray backtick can survive sanitizing.** `_sanitize_output` first
  cuts at the second Python fence and only then at the first backtick
  fence. A backtick immediately before a second Python fence therefore
  stays in the result (`CodeGraph.SanitizeKeepsStrayBacktick`).

### External calls as parameters

- `ast.parse` in the linker becomes a parameter
  `check: string -> Option<string>`. `None` means the text parses; any
  other value is the parser's message.
- `ast.parse` followed by the visitor's walk in the code-graph chain
  becomes a parameter `parser: string -> Result<seq<Stmt>>`. It yields
  the statements the visitor reacts to, in walk order.
- The database reads of the linker are replaced by an explicit function
  tree.

## Model

| member | source | states |
|---|---|---|
| `Text.AppendEachThenDrop` | codex/compile.py:44-46 | appending `name + ", "` per item and then dropping the last two characters yields exactly the items joined by `", "` |
| `Emitter.RenderStart` | codex/compile.py:41-48 | a start node renders as `def name(` followed by its output parameters as `name: type` joined by `", "`, then `):` |
| `Emitter.RenderAction` | codex/compile.py:55-68 | an action renders as the output names joined by `", "` and ` = ` (only when there are outputs), then the call with the input names joined by `", "` |
| `Emitter.RenderEnd` | codex/compile.py:69-80 | an end node renders nothing without inputs, `return x` with one input, and a parenthesised tuple with several |
| `Emitter.RenderFails` | codex/compile.py:40-82 | rendering fails exactly for an unknown node type, an elif without its clause, or a node kind that reads its node when none is attached |
| `Emitter.GraphToCodeFails` | codex/compile.py:241-251 | laying out the nodes fails exactly when some node fails to render, and then with the error of the first such node |
| `Emitter.GraphToCodeLines` | codex/compile.py:241-251 | when no rendered line holds a line break, splitting the output at newlines gives the indented lines in node order followed by one empty string |
| `Emitter.IndentIsSpaces` | codex/compile.py:243 | the indentation string is made of spaces only |
| `Emitter.StartLineRenamed` | codex/compile.py:245-248 | when the node name occurs only once, the start line declares the route function with the node's output parameters |
| `Emitter.RenameTouchesParameters` | codex/compile.py:247 | a parameter whose name contains the node name is renamed as well |
| `Linearizer.FindCommonDescendant` | codex/compile.py:276-284 | the merge point is empty or the name of a node after the branch |
| `Linearizer.ScanForMergeSpec` | codex/compile.py:279-283 | the scan returns the first later node named as successor by a node scanned before it, or empty when there is none |
| `Linearizer.CommonDescendantIsFirstMerge` | codex/compile.py:276-284 | the merge point is the name of the first node after the branch that an earlier node (after the branch) names as its successor, or empty when there is no such node |
| `Linearizer.MergeGuessFollowsListOrder` | codex/compile.py:276-284 | for a concrete graph the merge point is a node that neither arm reaches, because it comes first in the node list |
| `Linearizer.WalkArmChain` | codex/compile.py:254-273 | every node an arm holds is a node of the list at the arm's indentation with its own kind, recorded as consumed and never the merge point; a non-empty arm starts at the awaited successor, and each node's successor is the next node of the arm |
| `Linearizer.WalkArmTakesFirst` | codex/compile.py:263-272 | the walk takes the first listed node that is the awaited successor and not the merge point, emits it at the arm's indentation and continues after it awaiting that node's successor |
| `Linearizer.WalkArmNoneTaken` | codex/compile.py:263-273 | when no listed node is the awaited successor other than the merge point, the arm is empty |
| `Linearizer.ArmIsShaped` | codex/compile.py:254-273 | an arm's lines sit one level deeper than the branch, every line is in the skip list, and no arm line is an else or elif header |
| `Linearizer.ElifArmsShape` | codex/compile.py:183-201 | the elif headers and their arms are well shaped, every consumed node is in the skip list, and no else header appears |
| `Linearizer.IfBlock` | codex/compile.py:165-219 | handling a branch keeps the indentation, strictly extends the output and only extends the skip list |
| `Linearizer.IfBlockArms` | codex/compile.py:165-219 | a branch emits its if header at the current indentation, followed by well-shaped arms whose nodes are all skipped afterwards |
| `Linearizer.IfBlockElse` | codex/compile.py:203-219 | an else arm is emitted exactly when the false successor differs from the merge point |
| `Linearizer.Step` | codex/compile.py:154-236 | one loop iteration only appends to the output and to the skip list |
| `Linearizer.StateGrows` | codex/compile.py:154-238 | over the loop the output and the skip list only grow: each earlier state's lists are prefixes of every later state's lists |
| `Linearizer.ConsumedNotReemitted` | codex/compile.py:155-156 | when the main loop reaches a node that an arm of an earlier branch consumed, it skips the node and leaves the loop state unchanged |
| `Linearizer.NodeEmittedTwice` | codex/compile.py:263-272 | a node listed before a branch is emitted at top level and again inside the branch arm that names it |
| `Linearizer.IfBlockShape` | codex/compile.py:165-219 | an unconsumed branch yields its if header, well-shaped arms one level deeper, an else arm exactly when the false successor is not the merge point, and leaves the indentation unchanged |
| `Linearizer.BranchFreeLinearization` | codex/compile.py:154-238 | without branches nothing is skipped, and every start, action and end node is emitted once in list order at the depth given by the start nodes before it minus the end nodes before it; nodes of other types are dropped |
| `Requirements.RequirementLine` | codex/compile.py:100-105 | a manifest line starts with the package name, and it is the bare name exactly when no version is given |
| `Requirements.AggregateKeys` | codex/compile.py:86-95 | the grouped packages are the distinct package names in order of first appearance |
| `Requirements.AggregatePins` | codex/compile.py:89-92 | every group holds the version and specifier pairs of exactly the packages of its name, in input order, and the names are distinct |
| `Requirements.PinsOfFirst` | codex/compile.py:99 | the pair chosen for a name is that of the first package with that name |
| `Requirements.RequirementsManifest` | codex/compile.py:85-108 | the manifest is one line per distinct package name in order of first appearance, joined by newlines, each built from the first pin of that name |
| `Requirements.FirstPinWinsExample` | codex/compile.py:96-106 | with two conflicting pins for one package the first one is written and the later one is dropped |
| `GraphCompiler.CanonIsReplaceChain` | codex/compile.py:118 | the chain of replacements and lower-casing equals the character-by-character canonical name: spaces and dashes become underscores, slashes disappear, ASCII capitals are lowered |
| `GraphCompiler.RouteFunctionNameSpec` | codex/compile.py:117-120 | the route function name is the canonical form of the stripped path name followed by `_request` |
| `GraphCompiler.RouteFunctionNameClean` | codex/compile.py:117-120 | a route function name has no spaces, dashes, slashes or ASCII capitals and ends with `_request` |
| `GraphCompiler.RouteFunctionNameOfCanonical` | codex/compile.py:117-120 | a path name that is already canonical and unpadded only gets the `_request` suffix |
| `GraphCompiler.NodeCodeContributions` | codex/compile.py:124-128 | each node implementation adds its code after a blank line only when it has non-empty code, and always adds its packages |
| `GraphCompiler.CompileGraphResult` | codex/compile.py:111-139 | compiling fails exactly when some codeable node fails to render; on success it carries the route function name, the implementations then the linearised function, the manifest of all packages, the endpoint name and the graph |
| `ObjectTypes.ProcessObjectField` | codex/develop/compile.py:244-271 | processing a field only adds type ids from the field's own type tree to the emitted set, and a successful call leaves the field's type id in it |
| `ObjectTypes.ProcessObjectType` | codex/develop/compile.py:199-241 | processing a type only adds type ids from the type's own tree to the emitted set |
| `ObjectTypes.SubTypes` | codex/develop/compile.py:215-217 | the field loop adds one sub-type text per field that carries a type id, keeps the texts collected before, and only adds ids from the fields' type trees |
| `ObjectTypes.FieldSeenSet` | codex/develop/compile.py:260-267 | a primitive or already-emitted field emits nothing and changes nothing; processing a field twice emits its types at most once |
| `ObjectTypes.FieldWithoutType` | codex/develop/compile.py:265 | a field with a new type id but no type record fails with `Field type is None` |
| `ObjectTypes.ProcessObjectTypeShape` | codex/develop/compile.py:209-241 | a type without a field list fails; otherwise the text is as many blank-line-separated entries as the type has typed fields, followed by the type's class declaration |
| `ObjectTypes.OwnClassLast` | codex/develop/compile.py:231-241 | a successful type's text ends with its own class declaration |
| `ObjectTypes.SubTypesEntry` | codex/develop/compile.py:260-271 | the entry of each typed field sits at its position among the typed fields; under the type-id set threaded through the loop it is empty for an id already in the set, and for an id that neither the set nor an earlier field mentions it ends with the field type's class declaration |
| `ObjectTypes.NestedDeclaredFirst` | codex/develop/compile.py:215-241 | the class of a field type that is new to the set and to earlier fields is declared before the class of the type itself |
| `ObjectTypes.AllSubTypesSeen` | codex/develop/compile.py:215-232 | a type whose fields all refer to emitted types still emits one separator less than it has fields before its class |
| `TreeLinker.FieldModels` | codex/develop/compile.py:99-108 | one model text is collected per argument and return field |
| `TreeLinker.FieldModelsRepeat` | codex/develop/compile.py:98-108 | the fields of one function share one type-id set: a field without a type id, with an id already in the set, or with the id of an earlier field contributes an empty model |
| `TreeLinker.FieldModelsEntry` | codex/develop/compile.py:99-108 | a field whose type id is neither in the set nor mentioned by any earlier field's type tree declares its type: its model ends with that type's class |
| `TreeLinker.NestedIdNotShared` | codex/develop/compile.py:260-269 | for a concrete function whose first argument's type is skipped as already emitted, a later argument whose type sits below it still declares its class |
| `TreeLinker.OwnModelsFail` | codex/develop/compile.py:98-110 | the own models are computed before the leaf or composite split, so a failing own model fails the function with its error |
| `TreeLinker.CompileFunction` | codex/develop/compile.py:71-167 | a function links only if the syntax check accepts its imports, a blank line and its code |
| `TreeLinker.LeafResult` | codex/develop/compile.py:98-130 | a leaf fails first with a failing own model's error, then when it has no code; otherwise it fails with the checked text when the check rejects it, and yields its packages, imports, code and own models |
| `TreeLinker.LinkChildrenSpec` | codex/develop/compile.py:136-142 | the child loop links all children in order or fails with the first child's error |
| `TreeLinker.CompositeResult` | codex/develop/compile.py:98-167 | a composite fails first with a failing own model's error, then with the first child error, or without code, or with a syntax error on its checked text; otherwise it concatenates children's packages, imports, models and code in order, then adds its own |
| `TreeLinker.CompileAllElements` | codex/develop/compile.py:136-137 | every linked child is the child compiled on its own |
| `TreeLinker.CompositeIgnoresOwnModels` | codex/develop/compile.py:131-135 | once both own-model lists compute, a composite's result does not depend on its own argument and return types |
| `TreeLinker.LeafDeclaresFirstArg` | codex/develop/compile.py:98-130 | a leaf whose first argument has a structured type declares that type's class in its first model |
| `TreeLinker.SiblingsRepeatModels` | codex/develop/compile.py:134-140 | a composite's models are its two children's models in order, and two leaf children whose first arguments share a structured type both declare its class |
| `TreeLinker.EmptyChildListIsComposite` | codex/develop/compile.py:110 | an empty child list is linked as a composite: the code gains a leading blank line and the own models are dropped |
| `TreeLinker.CompileRouteLayout` | codex/develop/compile.py:49-66 | the service record holds exactly the package ids of the linked tree, the file name `<functionName>_service.py` and the root's name; its code is the imports and the pydantic import line, a blank line, the models separated by blank lines, a blank line and the linked code; split at line breaks it starts with the import lines when none spans lines |
| `ServerCode.ProcessRoute` | codex/develop/compile.py:302-344 | a route is accepted exactly when it has an API route spec with request and response types and the request type has a field list; an accepted route keeps its file name and packages |
| `ServerCode.ProcessRoutesOk` | codex/develop/compile.py:302-344 | the route loop succeeds exactly when every route is accepted |
| `ServerCode.ProcessRoutesFirstError` | codex/develop/compile.py:302-314 | a failing route loop reports the error of the first rejected route |
| `ServerCode.ProcessRoutesElements` | codex/develop/compile.py:306-307 | the loop keeps the routes' order and collects their packages in order |
| `ServerCode.CreateServerCodeResult` | codex/develop/compile.py:297-389 | without a route list the call fails; it succeeds exactly when every route is accepted, and then carries the app name and all routes' packages in order, repeats included |
| `ServerCode.ServerCodeImports` | codex/develop/compile.py:285-321 | the module's first lines are the five fixed imports, then one `from <file without .py> import *` per route in route order |
| `ServerCode.RouteCodeHead` | codex/develop/compile.py:346-361 | an endpoint starts with the decorator carrying the lower-cased method and the path, then the `async def` line with the route name and the request parameters |
| `ServerCode.ResponseTypeStreams` | codex/develop/compile.py:325-343 | an endpoint streams its response exactly when the response type's first field is `bytes`, and returns JSON otherwise |
| `CodeGraph.SanitizeOutput` | codex/chains/code_graph.py:67-72 | extraction succeeds exactly when the reply holds a Python fence, fails with an index error otherwise, and never returns a backtick fence |
| `CodeGraph.SanitizeCuts` | codex/chains/code_graph.py:70 | the extraction is the text after the first Python fence, cut before the next Python fence, then cut before the first backtick fence |
| `CodeGraph.SanitizeExtracts` | codex/chains/code_graph.py:67-72 | when no backtick sits right before the next Python fence, the extraction is the text between the first Python fence and the next backtick fence |
| `CodeGraph.SanitizeRoundTrip` | codex/chains/code_graph.py:67-72 | fencing code between a preamble and a postscript and extracting it gives the code back, provided the preamble holds no Python fence, the code holds no backtick fence, and the postscript does not start with a backtick |
| `CodeGraph.SanitizeKeepsStrayBacktick` | codex/chains/code_graph.py:70 | for a reply with a backtick right before a second Python fence the extraction keeps that backtick, unlike the text before the closing fence |
| `CodeGraph.VisitImport` | codex/chains/code_graph.py:32-38 | `import X` appends one line per alias in alias order, keeping the lines recorded before |
| `CodeGraph.VisitImportFrom` | codex/chains/code_graph.py:40-46 | `from M import X` appends one line per alias in alias order, keeping the lines recorded before |
| `CodeGraph.ImportLineRoundTrip` | codex/chains/code_graph.py:32-37 | an import line reads back as its alias; ` as Y` appears only when the local name is non-empty |
| `CodeGraph.FromLineRoundTrip` | codex/chains/code_graph.py:40-45 | a from-import line reads back as its module text (`None` for a missing module) and its alias |
| `CodeGraph.VisitImports` | codex/chains/code_graph.py:32-46 | the walk records every import line of every import statement, in walk order |
| `CodeGraph.VisitFunctions` | codex/chains/code_graph.py:57 | a name is in the function dictionary exactly when some walked definition has it, and its entry is the last such definition |
| `CodeGraph.Parse` | codex/chains/code_graph.py:75-90 | a parsed code graph carries the requested name and never lists it among the other functions; a reply without a Python fence fails with an index error |
| `CodeGraph.ParseResult` | codex/chains/code_graph.py:75-90 | parsing succeeds exactly when the main function is defined, and otherwise fails with a key error; the result holds its last definition, every import line in order, and exactly the other defined names |
| `CodeGraph.ParseFunctionTexts` | codex/chains/code_graph.py:82-89 | every remaining function carries the text of its last definition |

## Left out

- Formatting of the server module with `isort` and `black` (codex/develop/compile.py:381-382): both are external tools. The model's server code is the text before formatting.
- The persistence calls:
  - `Function.prisma().find_unique_or_raise` (the tree is given explicitly);
  - `CompiledRoute.prisma().create` (the model returns the record it would create);
  - `create_app` (only database writes).
- `uuid.uuid4()` in `create_server_code`: it is only called in a branch that cannot be reached, so route names are modelled without a suffix.
- The logging calls and the `print` in `visit_FunctionDef`: output only.
- How `visit_FunctionDef` renders a definition with `ast.unparse`: the parser parameter supplies the text of each definition.
- The relative-import level of `from . import x`: the visitor never reads it.
- `analyze_function_signature` and `create_fastapi_server` in codex/compile.py: they are outside the modelled core.
- The language-model chains themselves: the prompts, the `ChatOpenAI` instance, and the chains and agents that call these helpers.
- Pydantic validation of a `CodeableNode` whose node type is not one of the enum values: it is modelled as a rendering error (`Unknown` kind) rather than a construction error. Both surface from `convert_graph_to_code`.
- `str.lower` is modelled for ASCII letters only.
- The parameter fields `description` and `optional`: no modelled code reads them.
- Python's `-O` flag, which removes `assert` statements: assertions are modelled as always active.
- The `object_type_ids` parameter of `recursive_compile_route` and the mutable default set of `process_object_type`: the first is never read, and the second is never used with its default by the modelled callers.
- The order of the package ids in `compile_route`: it comes from `list(set(...))`, so it is arbitrary. The model keeps the ids as a set.
- SanitizeExtracts: does not cover a reply with a backtick right before its second Python fence, because the result then keeps that backtick. `CodeGraph.SanitizeCuts` states the result for every reply, and `CodeGraph.SanitizeKeepsStrayBacktick` shows the kept backtick.
- `TreeLinker.CompileFunction`: the syntax check is a parameter. The contract states that the check accepted the text, not that Python's parser would.
