/** The code emitter of the first-generation compiler: `CodeableNode.__str__`
    renders one statement, `graph_to_code` indents the statements and
    renames the function (codex/compile.py).
 */
module Emitter {
  import opened Basics
  import opened Text
  import opened GraphModel

  /** One level of indentation. */
  const IndentUnit: string := "    "

  function NoneAttribute(attr: string): PyError
  {
    AttributeError("'NoneType' object has no attribute '" + attr + "'")
  }

  /** `CodeableNode.__str__`, written the way the source builds the text:
      every list item is appended with a trailing `", "` and the last two
      characters are cut off afterwards. */
  function Render(c: CodeableNode): Result<string>
  {
    match c.kind
    case CStart =>
      if c.node.None? then Err(NoneAttribute("name"))
      else
        var n := c.node.value;
        var out := "def " + n.name + "(";
        var out := if |n.outputs| > 0 then DropTail(AppendEach(out, Decls(n.outputs)), 2) else out;
        Ok(out + "):")
    case CIf =>
      if c.node.None? then Err(NoneAttribute("python_if_condition"))
      else Ok("if " + c.node.value.condition + ":")
    case CElif =>
      if c.elseif.None? then Err(NoneAttribute("python_condition"))
      else Ok("elif " + c.elseif.value.condition + ":")
    case CElse => Ok("else:")
    case CAction =>
      if c.node.None? then Err(NoneAttribute("output_params"))
      else
        var n := c.node.value;
        var out := if |n.outputs| > 0 then DropTail(AppendEach("", Names(n.outputs)), 2) + " = " else "";
        var out := out + n.name + "(";
        var out := if |n.inputs| > 0 then DropTail(AppendEach(out, Names(n.inputs)), 2) else out;
        Ok(out + ")")
    case CEnd =>
      if c.node.None? then Err(NoneAttribute("input_params"))
      else
        var ins := c.node.value.inputs;
        if |ins| == 0 then Ok("")
        else if |ins| == 1 then Ok("return " + ins[0].name)
        else Ok(DropTail(AppendEach("return (", Names(ins)), 2) + ")")
    case Unknown(t) => Err(ValueError("Invalid node type: " + t))
  }

  /** A START node renders as a function header whose parameters are the
      node's outputs, `name: type`, separated by `", "`. */
  lemma RenderStart(c: CodeableNode)
    requires c.kind == CStart && c.node.Some?
    ensures Render(c) == Ok("def " + c.node.value.name + "(" + Join(", ", Decls(c.node.value.outputs)) + "):")
  {
    var n := c.node.value;
    var out := "def " + n.name + "(";
    if |n.outputs| > 0 {
      AppendEachThenDrop(out, Decls(n.outputs));
      assert DropTail(AppendEach(out, Decls(n.outputs)), 2) == out + Join(", ", Decls(n.outputs));
    } else {
      assert Join(", ", Decls(n.outputs)) == "";
      assert out + "" == out;
    }
  }

  /** An ACTION node renders as a call whose arguments are its inputs; the
      outputs become the assignment targets, and `" = "` appears only when
      there is at least one output. */
  lemma RenderAction(c: CodeableNode)
    requires c.kind == CAction && c.node.Some?
    ensures var n := c.node.value;
      Render(c) == Ok((if |n.outputs| > 0 then Join(", ", Names(n.outputs)) + " = " else "")
                      + n.name + "(" + Join(", ", Names(n.inputs)) + ")")
  {
    var n := c.node.value;
    if |n.outputs| > 0 {
      AppendEachThenDrop("", Names(n.outputs));
      assert DropTail(AppendEach("", Names(n.outputs)), 2) == Join(", ", Names(n.outputs));
    }
    var lhs := if |n.outputs| > 0 then Join(", ", Names(n.outputs)) + " = " else "";
    var out := lhs + n.name + "(";
    if |n.inputs| > 0 {
      AppendEachThenDrop(out, Names(n.inputs));
      assert DropTail(AppendEach(out, Names(n.inputs)), 2) == out + Join(", ", Names(n.inputs));
    } else {
      assert Join(", ", Names(n.inputs)) == "";
      assert out + "" == out;
    }
  }

  /** An END node returns its single input bare, several inputs as a
      parenthesised tuple, and renders as the empty string with none. */
  lemma RenderEnd(c: CodeableNode)
    requires c.kind == CEnd && c.node.Some?
    ensures var ins := c.node.value.inputs;
      Render(c) == Ok(if |ins| == 0 then ""
                      else if |ins| == 1 then "return " + ins[0].name
                      else "return (" + Join(", ", Names(ins)) + ")")
  {
    var ins := c.node.value.inputs;
    if |ins| > 1 {
      AppendEachThenDrop("return (", Names(ins));
    }
  }

  /** Rendering fails exactly for a node type outside the six kinds, or when
      the record the kind needs is absent. */
  lemma RenderFails(c: CodeableNode)
    ensures Render(c).Err? <==>
      (|| c.kind.Unknown?
       || (c.kind == CElif && c.elseif.None?)
       || (c.kind in {CStart, CIf, CAction, CEnd} && c.node.None?))
  {
  }

  /** The text of one statement: the START header has every occurrence of
      the node's name replaced by the exported function name. */
  function LineOf(c: CodeableNode, functionName: string): Result<string>
  {
    match Render(c)
    case Err(e) => Err(e)
    case Ok(s) =>
      Ok(if c.kind == CStart && c.node.Some? then ReplaceAll(s, c.node.value.name, functionName) else s)
  }

  /** `graph_to_code`: one indented line per codeable node, in order.  The
      first statement that cannot be rendered aborts the whole text. */
  function GraphToCode(cs: seq<CodeableNode>, functionName: string): Result<string>
    decreases |cs|
  {
    if |cs| == 0 then Ok("")
    else
      match LineOf(cs[0], functionName)
      case Err(e) => Err(e)
      case Ok(line) =>
        match GraphToCode(cs[1..], functionName)
        case Err(e) => Err(e)
        case Ok(rest) => Ok(Repeat(IndentUnit, cs[0].indent) + line + "\n" + rest)
  }

  /** The emitted code fails exactly when some statement fails to render,
      and then it reports the error of the first such statement. */
  lemma {:induction false} GraphToCodeFails(cs: seq<CodeableNode>, functionName: string)
    ensures GraphToCode(cs, functionName).Err? <==> exists k :: 0 <= k < |cs| && Render(cs[k]).Err?
    ensures GraphToCode(cs, functionName).Err? ==>
      exists k :: 0 <= k < |cs| && Render(cs[k]).Err?
        && GraphToCode(cs, functionName).error == Render(cs[k]).error
        && forall j :: 0 <= j < k ==> Render(cs[j]).Ok?
    decreases |cs|
  {
    if |cs| > 0 {
      GraphToCodeFails(cs[1..], functionName);
      if Render(cs[0]).Ok? {
        if GraphToCode(cs[1..], functionName).Err? {
          var k :| 0 <= k < |cs[1..]| && Render(cs[1..][k]).Err?
            && GraphToCode(cs[1..], functionName).error == Render(cs[1..][k]).error
            && forall j :: 0 <= j < k ==> Render(cs[1..][j]).Ok?;
          assert Render(cs[k + 1]).Err?;
          forall j | 0 <= j < k + 1
            ensures Render(cs[j]).Ok?
          {
            if j > 0 {
              assert cs[j] == cs[1..][j - 1];
            }
          }
        } else {
          forall k | 0 <= k < |cs|
            ensures Render(cs[k]).Ok?
          {
            if k > 0 {
              assert cs[k] == cs[1..][k - 1];
            }
          }
        }
      }
    }
  }

  lemma {:induction false} IndentIsSpaces(n: int)
    ensures forall i :: 0 <= i < |Repeat(IndentUnit, n)| ==> Repeat(IndentUnit, n)[i] == ' '
    decreases if n <= 0 then 0 else n
  {
    if n > 0 {
      IndentIsSpaces(n - 1);
      var r := Repeat(IndentUnit, n - 1);
      assert Repeat(IndentUnit, n) == IndentUnit + r;
      forall i | 0 <= i < |IndentUnit + r|
        ensures (IndentUnit + r)[i] == ' '
      {
        if i >= |IndentUnit| {
          assert (IndentUnit + r)[i] == r[i - |IndentUnit|];
        }
      }
    }
  }

  /** The indented text of every statement, one entry per codeable node. */
  function Layout(cs: seq<CodeableNode>, functionName: string): (lines: seq<string>)
    requires forall k :: 0 <= k < |cs| ==> LineOf(cs[k], functionName).Ok?
    ensures |lines| == |cs|
    ensures forall k :: 0 <= k < |cs| ==>
      lines[k] == Repeat(IndentUnit, cs[k].indent) + LineOf(cs[k], functionName).value
  {
    seq(|cs|, k requires 0 <= k < |cs| => Repeat(IndentUnit, cs[k].indent) + LineOf(cs[k], functionName).value)
  }

  lemma IndentedLineHasNoBreak(indent: int, line: string)
    requires '\n' !in line
    ensures '\n' !in Repeat(IndentUnit, indent) + line
  {
    IndentIsSpaces(indent);
    var ind := Repeat(IndentUnit, indent);
    forall i | 0 <= i < |ind + line|
      ensures (ind + line)[i] != '\n'
    {
      if i >= |ind| {
        assert (ind + line)[i] == line[i - |ind|];
      }
    }
  }

  lemma GraphToCodeCons(cs: seq<CodeableNode>, functionName: string)
    requires |cs| > 0 && LineOf(cs[0], functionName).Ok? && GraphToCode(cs[1..], functionName).Ok?
    ensures GraphToCode(cs, functionName) ==
      Ok(Repeat(IndentUnit, cs[0].indent) + LineOf(cs[0], functionName).value + "\n"
         + GraphToCode(cs[1..], functionName).value)
  {
  }

  lemma LayoutCons(cs: seq<CodeableNode>, functionName: string)
    requires |cs| > 0
    requires forall k :: 0 <= k < |cs| ==> LineOf(cs[k], functionName).Ok?
    ensures Layout(cs, functionName) ==
      [Repeat(IndentUnit, cs[0].indent) + LineOf(cs[0], functionName).value] + Layout(cs[1..], functionName)
  {
  }

  /** When no rendered statement contains a line break, splitting the
      emitted code at line breaks gives back exactly one line per node, in
      order, each being the indentation for its depth followed by its text,
      and nothing after the final line break. */
  lemma {:induction false} GraphToCodeLines(cs: seq<CodeableNode>, functionName: string)
    requires forall k :: 0 <= k < |cs| ==>
      LineOf(cs[k], functionName).Ok? && '\n' !in LineOf(cs[k], functionName).value
    ensures GraphToCode(cs, functionName).Ok?
    ensures Split(GraphToCode(cs, functionName).value, "\n") == Layout(cs, functionName) + [""]
    decreases |cs|
  {
    if |cs| == 0 {
      assert !Occurs("", "\n");
      SplitNoSep("", "\n");
    } else {
      var rest := cs[1..];
      assert forall k :: 0 <= k < |rest| ==> rest[k] == cs[k + 1];
      GraphToCodeLines(rest, functionName);
      var line := LineOf(cs[0], functionName).value;
      var head := Repeat(IndentUnit, cs[0].indent) + line;
      IndentedLineHasNoBreak(cs[0].indent, line);
      var tail := GraphToCode(rest, functionName).value;
      GraphToCodeCons(cs, functionName);
      LayoutCons(cs, functionName);
      SplitLineThen(head, tail, Layout(rest, functionName));
    }
  }

  lemma SplitLineThen(head: string, tail: string, lines: seq<string>)
    requires '\n' !in head
    requires Split(tail, "\n") == lines + [""]
    ensures Split(head + "\n" + tail, "\n") == [head] + lines + [""]
  {
    SplitOnFreshChar(head, '\n', tail);
  }

  lemma LineOfStart(c: CodeableNode, functionName: string)
    requires c.kind == CStart && c.node.Some?
    ensures Render(c).Ok?
    ensures LineOf(c, functionName) == Ok(ReplaceAll(Render(c).value, c.node.value.name, functionName))
  {
  }

  /** A name without spaces that does not occur inside `def` first occurs
      in `"def " + name + b` right after the keyword. */
  lemma NameFirstAfterDef(n: string, b: string)
    requires |n| > 0 && ' ' !in n && !Occurs("def", n)
    ensures forall j :: 0 <= j < |"def "| ==> !OccursAt("def " + n + b, j, n)
  {
    var line := "def " + n + b;
    forall j | 0 <= j < |"def "|
      ensures !OccursAt(line, j, n)
    {
      if j + |n| <= 3 {
        assert line[j..j + |n|] == "def"[j..j + |n|];
        assert !OccursAt("def", j, n);
      } else if j + |n| <= |line| {
        assert line[j..j + |n|][3 - j] == line[3] == ' ';
        assert n[3 - j] != ' ';
      }
    }
  }

  /** The START header is renamed exactly when the node's name has no space,
      does not occur inside the keyword `def`, and does not occur in the
      parameter list: then the header declares `functionName` with the same
      parameters. */
  lemma StartLineRenamed(c: CodeableNode, functionName: string)
    requires c.kind == CStart && c.node.Some?
    requires var n := c.node.value.name; |n| > 0 && ' ' !in n && !Occurs("def", n)
    requires !Occurs("(" + Join(", ", Decls(c.node.value.outputs)) + "):", c.node.value.name)
    ensures LineOf(c, functionName) ==
      Ok("def " + functionName + "(" + Join(", ", Decls(c.node.value.outputs)) + "):")
  {
    var n := c.node.value.name;
    var b := "(" + Join(", ", Decls(c.node.value.outputs)) + "):";
    RenderStart(c);
    LineOfStart(c, functionName);
    assert "def " + n + "(" + Join(", ", Decls(c.node.value.outputs)) + "):" == "def " + n + b;
    NameFirstAfterDef(n, b);
    ReplaceAtFirst("def ", n, b, functionName);
    ReplaceAbsent(b, n, functionName);
    assert "def " + functionName + b == "def " + functionName + "(" + Join(", ", Decls(c.node.value.outputs)) + "):";
  }

  lemma ReplaceNameTwice(n: string, rest: string, functionName: string)
    requires |n| > 0 && ' ' !in n && '(' !in n && !Occurs("def", n)
    requires !Occurs(rest, n)
    ensures ReplaceAll("def " + n + ("(" + n + rest), n, functionName) == "def " + functionName + ("(" + functionName + rest)
  {
    NameFirstAfterDef(n, "(" + n + rest);
    ReplaceAtFirst("def ", n, "(" + n + rest, functionName);
    assert !OccursAt("(" + n + rest, 0, n) by {
      assert ("(" + n + rest)[0] == '(';
      assert n[0] != '(';
    }
    ReplaceAtFirst("(", n, rest, functionName);
    ReplaceAbsent(rest, n, functionName);
  }

  /** The renaming is a plain text replacement, not a rename of the
      declaration: a single output parameter whose name begins with the
      node's name is renamed along with the function. */
  lemma RenameTouchesParameters(c: CodeableNode, suffix: string, ty: string, functionName: string)
    requires c.kind == CStart && c.node.Some?
    requires var n := c.node.value.name; |n| > 0 && ' ' !in n && '(' !in n && !Occurs("def", n)
    requires c.node.value.outputs == [Param(c.node.value.name + suffix, ty)]
    requires !Occurs(suffix + ": " + ty + "):", c.node.value.name)
    ensures LineOf(c, functionName) == Ok("def " + functionName + "(" + functionName + suffix + ": " + ty + "):")
  {
    var n := c.node.value.name;
    var x := suffix + ": " + ty;
    var rest := x + "):";
    RenderStart(c);
    LineOfStart(c, functionName);
    var ds := Decls(c.node.value.outputs);
    assert |ds| == 1 && ds[0] == n + x;
    assert Join(", ", ds) == n + x;
    Regroup("def ", n, "(", x, "):");
    assert Render(c).value == "def " + n + ("(" + n + rest);
    ReplaceNameTwice(n, rest, functionName);
    Regroup("def ", functionName, "(", x, "):");
    var head := "def " + functionName + "(" + functionName;
    assert head + x + "):" == head + suffix + ": " + ty + "):";
    assert LineOf(c, functionName) == Ok(head + x + "):");
  }

  lemma Regroup(p: string, n: string, q: string, x: string, t: string)
    ensures p + n + q + (n + x) + t == p + n + (q + n + (x + t))
    ensures p + n + (q + n + (x + t)) == p + n + q + n + x + t
  {
  }
}
