/** The branching node graph that the first-generation compiler turns into
    one Python function, and the intermediate "codeable node" records that
    the linearizer hands to the emitter.
 */
module GraphModel {
  import opened Basics

  /** A typed parameter of a node.  Only its name and its type text reach
      the generated code. */
  datatype Param = Param(name: string, paramType: string)

  /** The node types a graph can hold.  `Other` stands for any type tag the
      graph producer writes that the compiler does not recognise. */
  datatype NodeKind = Start | If | Action | End | Other(tag: string)

  /** An `elif` clause of an `if` node. */
  datatype ElseIf = ElseIf(condition: string, trueNext: Option<string>)

  /** One node of the graph.  Successors are referenced by node name;
      an action's successor is `next`, an `if` has a true successor, its
      `elif` clauses and a false successor. */
  datatype NodeDef = NodeDef(
    name: string,
    kind: NodeKind,
    inputs: seq<Param>,
    outputs: seq<Param>,
    condition: string,
    trueNext: Option<string>,
    elifs: seq<ElseIf>,
    falseNext: Option<string>,
    next: Option<string>)

  /** A graph: its nodes in authoring order. */
  datatype NodeGraph = NodeGraph(nodes: seq<NodeDef>)

  /** The statement kinds of a codeable node.  `Unknown` carries a node type
      that is none of the six. */
  datatype CodeKind = CStart | CIf | CElif | CElse | CAction | CEnd | Unknown(tag: string)

  /** One statement of the linearized function: its indentation depth, its
      kind, and the graph node (or `elif` clause) it renders. */
  datatype CodeableNode = CodeableNode(
    indent: int,
    kind: CodeKind,
    node: Option<NodeDef>,
    elseif: Option<ElseIf>)

  /** The statement kind a graph node keeps when an `if` arm copies it. */
  function KindOf(k: NodeKind): CodeKind
  {
    match k
    case Start => CStart
    case If => CIf
    case Action => CAction
    case End => CEnd
    case Other(t) => Unknown(t)
  }

  function Names(ps: seq<Param>): (r: seq<string>)
    ensures |r| == |ps|
    ensures forall i :: 0 <= i < |ps| ==> r[i] == ps[i].name
  {
    seq(|ps|, i requires 0 <= i < |ps| => ps[i].name)
  }

  /** The `name: type` declarations of a parameter list. */
  function Decls(ps: seq<Param>): (r: seq<string>)
    ensures |r| == |ps|
    ensures forall i :: 0 <= i < |ps| ==> r[i] == ps[i].name + ": " + ps[i].paramType
  {
    seq(|ps|, i requires 0 <= i < |ps| => ps[i].name + ": " + ps[i].paramType)
  }
}
