/** The control-flow linearizer of the first-generation compiler
    (`pre_process_nodes`, `process_if_paths`, `find_common_descendent` in
    codex/compile.py).  It walks the node list in authoring order, keeps an
    indentation depth and a list of node names already consumed by an `if`
    arm, and produces the codeable statements the emitter renders.

    Merge points and arms are found by scanning the node list in authoring
    order, not by following reachability; the model keeps that behaviour.
 */
module Linearizer {
  import opened Basics
  import opened GraphModel

  /** The loop state of `pre_process_nodes`: the statements produced so
      far, the names consumed by `if` arms, and the current depth. */
  datatype LinState = LinState(out: seq<CodeableNode>, skip: seq<string>, indent: int)

  /** What `process_if_paths` returns: the consumed names and the arm's
      statements. */
  datatype Arm = Arm(skip: seq<string>, code: seq<CodeableNode>)

  // ---------------------------------------------------------------------
  // find_common_descendent

  /** Node `j` (after `i`) is the successor of some node strictly between
      `i` and `j` in authoring order. */
  ghost predicate MergesAt(nodes: seq<NodeDef>, i: int, j: int)
    requires 0 <= i && 0 <= j < |nodes|
  {
    exists k :: i < k < j && nodes[k].next == Some(nodes[j].name)
  }

  /** The successor names of the nodes at positions `i+1 .. k-1`. */
  function NextsBetween(nodes: seq<NodeDef>, i: int, k: int): seq<Option<string>>
    requires -1 <= i < k <= |nodes|
    decreases k - i
  {
    if k == i + 1 then [] else NextsBetween(nodes, i, k - 1) + [nodes[k - 1].next]
  }

  /** The loop of `find_common_descendent` from position `k` on, with
      `seen` the successor names collected so far. */
  function ScanForMerge(nodes: seq<NodeDef>, k: nat, seen: seq<Option<string>>): (r: string)
    ensures r == "" || exists j :: k <= j < |nodes| && nodes[j].name == r
    decreases |nodes| - k
  {
    if k >= |nodes| then ""
    else if Some(nodes[k].name) in seen then nodes[k].name
    else ScanForMerge(nodes, k + 1, seen + [nodes[k].next])
  }

  /** `find_common_descendent(nodes, node, i)`: the guessed merge point of
      the `if` at position `i`; it is either `""` or the name of a node
      listed after the `if`.  The `if` node's own successors are not read. */
  function FindCommonDescendant(nodes: seq<NodeDef>, i: nat): (r: string)
    requires i < |nodes|
    ensures r == "" || exists j :: i < j < |nodes| && nodes[j].name == r
  {
    ScanForMerge(nodes, i + 1, [])
  }

  lemma NextsBetweenMember(nodes: seq<NodeDef>, i: int, k: int, name: string)
    requires -1 <= i < k <= |nodes|
    ensures Some(name) in NextsBetween(nodes, i, k) <==> exists m :: i < m < k && nodes[m].next == Some(name)
    decreases k - i
  {
    if k > i + 1 {
      NextsBetweenMember(nodes, i, k - 1, name);
    }
  }

  lemma {:induction false} ScanForMergeSpec(nodes: seq<NodeDef>, i: nat, k: nat)
    requires i < k <= |nodes|
    requires forall j :: i < j < k ==> !MergesAt(nodes, i, j)
    ensures var r := ScanForMerge(nodes, k, NextsBetween(nodes, i, k));
      || (exists j :: k <= j < |nodes| && MergesAt(nodes, i, j) && r == nodes[j].name
                      && forall j' :: i < j' < j ==> !MergesAt(nodes, i, j'))
      || (r == "" && forall j :: i < j < |nodes| ==> !MergesAt(nodes, i, j))
    decreases |nodes| - k
  {
    if k < |nodes| {
      var seen := NextsBetween(nodes, i, k);
      NextsBetweenMember(nodes, i, k, nodes[k].name);
      if Some(nodes[k].name) !in seen {
        assert !MergesAt(nodes, i, k);
        assert NextsBetween(nodes, i, k + 1) == seen + [nodes[k].next];
        ScanForMergeSpec(nodes, i, k + 1);
      }
    }
  }

  /** The merge point found is the first node after the `if` that is the
      successor of some node between the `if` and itself, in authoring
      order; when there is none the result is `""`. */
  lemma CommonDescendantIsFirstMerge(nodes: seq<NodeDef>, i: nat)
    requires i < |nodes|
    ensures var r := FindCommonDescendant(nodes, i);
      || (exists j :: i < j < |nodes| && MergesAt(nodes, i, j) && r == nodes[j].name
                      && forall j' :: i < j' < j ==> !MergesAt(nodes, i, j'))
      || (r == "" && forall j :: i < j < |nodes| ==> !MergesAt(nodes, i, j))
  {
    if i + 1 == |nodes| {
    } else {
      ScanForMergeSpec(nodes, i, i + 1);
    }
  }

  // ---------------------------------------------------------------------
  // process_if_paths

  /** The loop of `process_if_paths` from position `k` on: a node is taken
      when it is the awaited successor and is not the merge point; the
      awaited name then becomes that node's successor. */
  function WalkArm(nodes: seq<NodeDef>, k: nat, next: Option<string>, merge: string, indent: int): (r: Arm)
    requires k <= |nodes|
    ensures |r.skip| == |r.code|
    decreases |nodes| - k
  {
    if k == |nodes| then Arm([], [])
    else
      var sub := nodes[k];
      if sub.name != merge && next == Some(sub.name) then
        var rest := WalkArm(nodes, k + 1, sub.next, merge, indent);
        Arm([sub.name] + rest.skip, [CodeableNode(indent, KindOf(sub.kind), Some(sub), None)] + rest.code)
      else
        WalkArm(nodes, k + 1, next, merge, indent)
  }

  /** Node `q` is the one the walk takes while it awaits `next`. */
  predicate Takes(nodes: seq<NodeDef>, q: nat, next: Option<string>, merge: string)
    requires q < |nodes|
  {
    nodes[q].name != merge && next == Some(nodes[q].name)
  }

  /** The walk takes the first listed node that is the awaited successor
      and not the merge point, and then goes on from the following
      position awaiting that node's successor. */
  lemma {:induction false} WalkArmTakesFirst(nodes: seq<NodeDef>, k: nat, p: nat, next: Option<string>, merge: string, indent: int)
    requires k <= p < |nodes| && Takes(nodes, p, next, merge)
    requires forall q :: k <= q < p ==> !Takes(nodes, q, next, merge)
    ensures var sub := nodes[p];
      var rest := WalkArm(nodes, p + 1, sub.next, merge, indent);
      WalkArm(nodes, k, next, merge, indent)
        == Arm([sub.name] + rest.skip, [CodeableNode(indent, KindOf(sub.kind), Some(sub), None)] + rest.code)
    decreases p - k
  {
    if k < p {
      assert !Takes(nodes, k, next, merge);
      WalkArmTakesFirst(nodes, k + 1, p, next, merge, indent);
    }
  }

  /** When no listed node from position `k` on is the awaited successor
      (other than the merge point), the arm is empty. */
  lemma {:induction false} WalkArmNoneTaken(nodes: seq<NodeDef>, k: nat, next: Option<string>, merge: string, indent: int)
    requires k <= |nodes|
    requires forall q :: k <= q < |nodes| ==> !Takes(nodes, q, next, merge)
    ensures WalkArm(nodes, k, next, merge, indent) == Arm([], [])
    decreases |nodes| - k
  {
    if k < |nodes| {
      assert !Takes(nodes, k, next, merge);
      WalkArmNoneTaken(nodes, k + 1, next, merge, indent);
    }
  }

  /** An arm is a chain: every statement is a node listed at or after `k`,
      copied at the arm's depth with its own kind; its name is recorded as
      consumed and is never the merge point; the first is the awaited
      successor `next` and each one's successor is the next one. */
  lemma WalkArmChain(nodes: seq<NodeDef>, k: nat, next: Option<string>, merge: string, indent: int)
    requires k <= |nodes|
    ensures var r := WalkArm(nodes, k, next, merge, indent);
      && (forall m :: 0 <= m < |r.code| ==>
            && r.code[m].indent == indent
            && r.code[m].node.Some? && r.code[m].elseif.None?
            && r.code[m].node.value in nodes[k..]
            && r.code[m].kind == KindOf(r.code[m].node.value.kind)
            && r.skip[m] == r.code[m].node.value.name
            && r.skip[m] != merge)
      && (|r.code| > 0 ==> next == Some(r.skip[0]))
      && (forall m :: 0 <= m < |r.code| - 1 ==> r.code[m].node.value.next == Some(r.skip[m + 1]))
  {
    WalkArmMembers(nodes, k, next, merge, indent);
    WalkArmLinks(nodes, k, next, merge, indent);
  }

  /** Each statement of an arm is a node listed at or after `k`, at the
      arm's depth with its own kind, recorded as consumed and never the
      merge point. */
  predicate ArmMembers(r: Arm, nodes: seq<NodeDef>, k: nat, merge: string, indent: int)
    requires k <= |nodes| && |r.skip| == |r.code|
  {
    forall m :: 0 <= m < |r.code| ==>
      && r.code[m].indent == indent
      && r.code[m].node.Some? && r.code[m].elseif.None?
      && r.code[m].node.value in nodes[k..]
      && r.code[m].kind == KindOf(r.code[m].node.value.kind)
      && r.skip[m] == r.code[m].node.value.name
      && r.skip[m] != merge
  }

  lemma {:induction false} WalkArmMembers(nodes: seq<NodeDef>, k: nat, next: Option<string>, merge: string, indent: int)
    requires k <= |nodes|
    ensures ArmMembers(WalkArm(nodes, k, next, merge, indent), nodes, k, merge, indent)
    decreases |nodes| - k
  {
    if k < |nodes| {
      var sub := nodes[k];
      var r := WalkArm(nodes, k, next, merge, indent);
      if sub.name != merge && next == Some(sub.name) {
        WalkArmMembers(nodes, k + 1, sub.next, merge, indent);
        var rest := WalkArm(nodes, k + 1, sub.next, merge, indent);
        assert r.code == [CodeableNode(indent, KindOf(sub.kind), Some(sub), None)] + rest.code;
        assert r.skip == [sub.name] + rest.skip;
        forall m | 0 < m < |r.code|
          ensures r.code[m] == rest.code[m - 1] && r.skip[m] == rest.skip[m - 1]
          ensures r.code[m].node.Some? && r.code[m].node.value in nodes[k..]
        {
          assert r.code[m] == rest.code[m - 1];
          SuffixWiden(nodes, k, rest.code[m - 1].node.value);
        }
        assert nodes[k..][0] == sub;
      } else {
        WalkArmMembers(nodes, k + 1, next, merge, indent);
        forall m | 0 <= m < |r.code|
          ensures r.code[m].node.Some? && r.code[m].node.value in nodes[k..]
        {
          SuffixWiden(nodes, k, r.code[m].node.value);
        }
      }
    }
  }

  /** An arm starts at the awaited successor and each statement's node is
      followed by the next one's. */
  predicate ArmLinked(r: Arm, next: Option<string>)
    requires |r.skip| == |r.code|
  {
    && (|r.code| > 0 ==> next == Some(r.skip[0]))
    && (forall m :: 0 <= m < |r.code| - 1 ==> r.code[m].node.Some? && r.code[m].node.value.next == Some(r.skip[m + 1]))
  }

  lemma {:induction false} WalkArmLinks(nodes: seq<NodeDef>, k: nat, next: Option<string>, merge: string, indent: int)
    requires k <= |nodes|
    ensures ArmLinked(WalkArm(nodes, k, next, merge, indent), next)
    decreases |nodes| - k
  {
    if k < |nodes| {
      var sub := nodes[k];
      var r := WalkArm(nodes, k, next, merge, indent);
      if sub.name != merge && next == Some(sub.name) {
        WalkArmLinks(nodes, k + 1, sub.next, merge, indent);
        var rest := WalkArm(nodes, k + 1, sub.next, merge, indent);
        assert r.code == [CodeableNode(indent, KindOf(sub.kind), Some(sub), None)] + rest.code;
        assert r.skip == [sub.name] + rest.skip;
        forall m | 0 < m < |r.code| - 1
          ensures r.code[m] == rest.code[m - 1] && r.skip[m + 1] == rest.skip[m]
        {
        }
      } else {
        WalkArmLinks(nodes, k + 1, next, merge, indent);
      }
    }
  }

  /** What lies in a suffix lies in every longer suffix. */
  lemma SuffixWiden<T>(s: seq<T>, k: nat, x: T)
    requires k < |s| && x in s[k + 1..]
    ensures x in s[k..]
  {
    assert s[k..] == [s[k]] + s[k + 1..];
  }

  /** `process_if_paths(graph, node, next, merge, indent)`: the chain of
      successors starting at `next`, collected in authoring order over the
      whole node list and stopped at the merge point. */
  function ProcessIfPaths(nodes: seq<NodeDef>, next: Option<string>, merge: string, indent: int): Arm
  {
    WalkArm(nodes, 0, next, merge, indent)
  }

  // ---------------------------------------------------------------------
  // pre_process_nodes

  /** Statements of a branch block after its `if` header: `elif`/`else`
      headers sit at the `if`'s depth `d`, arm statements one deeper. */
  predicate ArmShaped(s: seq<CodeableNode>, d: int)
  {
    forall m :: 0 <= m < |s| ==>
      if s[m].kind == CElif || s[m].kind == CElse then s[m].indent == d
      else s[m].indent == d + 1 && s[m].node.Some?
  }

  /** Every arm statement of `s` has its node's name among `skip`. */
  predicate ArmsConsumed(s: seq<CodeableNode>, d: int, skip: seq<string>)
  {
    forall m :: 0 <= m < |s| && s[m].indent == d + 1 && s[m].node.Some? ==> s[m].node.value.name in skip
  }

  lemma ArmIsShaped(a: Arm, nodes: seq<NodeDef>, next: Option<string>, merge: string, d: int)
    requires a == ProcessIfPaths(nodes, next, merge, d + 1)
    ensures ArmShaped(a.code, d)
    ensures ArmsConsumed(a.code, d, a.skip)
    ensures NoElse(a.code)
    ensures forall m :: 0 <= m < |a.code| ==> a.code[m].kind != CElse && a.code[m].kind != CElif
  {
    WalkArmChain(nodes, 0, next, merge, d + 1);
    var code := a.code;
    forall m | 0 <= m < |code|
      ensures code[m].kind != CElse && code[m].kind != CElif
      ensures code[m].indent == d + 1 && code[m].node.Some?
      ensures code[m].node.value.name in a.skip
    {
      KindOfNotHeader(code[m].node.value.kind);
      assert a.skip[m] == code[m].node.value.name;
    }
  }

  lemma KindOfNotHeader(k: NodeKind)
    ensures KindOf(k) != CElse && KindOf(k) != CElif
  {
  }

  /** Appending one arm with its header (an `elif` or `else` line). */
  function AddArm(st: LinState, header: CodeableNode, a: Arm): LinState
  {
    st.(out := st.out + [header] + a.code, skip := st.skip + a.skip)
  }

  /** The `for elifs in node.elifs` loop. */
  function ElifArms(nodes: seq<NodeDef>, elifs: seq<ElseIf>, merge: string, d: int, st: LinState): (r: LinState)
    ensures r.indent == st.indent
    ensures |st.out| <= |r.out| && r.out[..|st.out|] == st.out
    ensures |st.skip| <= |r.skip| && r.skip[..|st.skip|] == st.skip
    decreases |elifs|
  {
    if |elifs| == 0 then st
    else
      var e := elifs[0];
      ElifArms(nodes, elifs[1..], merge, d,
               AddArm(st, CodeableNode(d, CElif, None, Some(e)), ProcessIfPaths(nodes, e.trueNext, merge, d + 1)))
  }

  /** No statement of `s` is an `else` header. */
  predicate NoElse(s: seq<CodeableNode>)
  {
    forall m :: 0 <= m < |s| ==> s[m].kind != CElse
  }

  /** Every statement the `elif` loop adds is an `elif` header at depth `d`
      or an arm statement at `d + 1` whose name it records as consumed. */
  lemma {:induction false} ElifArmsShape(nodes: seq<NodeDef>, elifs: seq<ElseIf>, merge: string, d: int, st: LinState)
    ensures var r := ElifArms(nodes, elifs, merge, d, st);
      && ArmShaped(r.out[|st.out|..], d)
      && ArmsConsumed(r.out[|st.out|..], d, r.skip)
      && NoElse(r.out[|st.out|..])
    decreases |elifs|
  {
    var r := ElifArms(nodes, elifs, merge, d, st);
    if |elifs| > 0 {
      var e := elifs[0];
      var hdr := CodeableNode(d, CElif, None, Some(e));
      var a := ProcessIfPaths(nodes, e.trueNext, merge, d + 1);
      var st' := AddArm(st, hdr, a);
      ArmIsShaped(a, nodes, e.trueNext, merge, d);
      ElifArmsShape(nodes, elifs[1..], merge, d, st');
      assert r == ElifArms(nodes, elifs[1..], merge, d, st');
      var rest := r.out[|st'.out|..];
      assert r.out[|st.out|..] == ([hdr] + a.code) + rest;
      assert r.skip[|st.skip|..|st.skip| + |a.skip|] == a.skip by {
        assert r.skip[..|st'.skip|] == st.skip + a.skip;
      }
      ArmShapedJoin([hdr], a.code, d);
      ArmShapedJoin([hdr] + a.code, rest, d);
      ArmsConsumedJoin([hdr], a.code, d, [], a.skip, 0);
      ArmsConsumedJoin([hdr] + a.code, rest, d, a.skip, r.skip, |st.skip|);
      NoElseJoin([hdr] + a.code, rest);
    }
  }

  lemma NoElseJoin(s1: seq<CodeableNode>, s2: seq<CodeableNode>)
    requires NoElse(s1) && NoElse(s2)
    ensures NoElse(s1 + s2)
  {
    forall m | 0 <= m < |s1 + s2|
      ensures (s1 + s2)[m] == if m < |s1| then s1[m] else s2[m - |s1|]
    {
    }
  }

  /** The `if` header followed by the true arm. */
  function TrueArm(nodes: seq<NodeDef>, i: nat, merge: string, st: LinState): LinState
    requires i < |nodes|
  {
    var t := ProcessIfPaths(nodes, nodes[i].trueNext, merge, st.indent + 1);
    st.(out := st.out + [CodeableNode(st.indent, CIf, Some(nodes[i]), None)] + t.code, skip := st.skip + t.skip)
  }

  /** The `if` branch of the main loop: the `if` header, the true arm, the
      `elif` arms, and the `else` arm unless the false successor is the
      merge point. */
  function IfBlock(nodes: seq<NodeDef>, i: nat, st: LinState): (r: LinState)
    requires i < |nodes|
    ensures r.indent == st.indent
    ensures |st.out| < |r.out| && r.out[..|st.out|] == st.out
    ensures |st.skip| <= |r.skip| && r.skip[..|st.skip|] == st.skip
  {
    var node := nodes[i];
    var merge := FindCommonDescendant(nodes, i);
    var d := st.indent;
    var st3 := ElifArms(nodes, node.elifs, merge, d, TrueArm(nodes, i, merge, st));
    if node.falseNext != Some(merge) then
      AddArm(st3, CodeableNode(d, CElse, Some(node), None), ProcessIfPaths(nodes, node.falseNext, merge, d + 1))
    else
      st3
  }

  /** After the `if` header, the block an `if` adds holds `elif`/`else`
      headers at the current depth `d` and arm statements at `d + 1`, and
      every arm statement's name is recorded as consumed. */
  lemma IfBlockArms(nodes: seq<NodeDef>, i: nat, st: LinState)
    requires i < |nodes|
    ensures var r := IfBlock(nodes, i, st);
      && r.out[|st.out|] == CodeableNode(st.indent, CIf, Some(nodes[i]), None)
      && ArmShaped(r.out[|st.out| + 1..], st.indent)
      && ArmsConsumed(r.out[|st.out| + 1..], st.indent, r.skip)
  {
    var node := nodes[i];
    var merge := FindCommonDescendant(nodes, i);
    var d := st.indent;
    var st3 := ElifArms(nodes, node.elifs, merge, d, TrueArm(nodes, i, merge, st));
    TrueAndElifArmsShape(nodes, i, merge, st);
    if node.falseNext != Some(merge) {
      var f := ProcessIfPaths(nodes, node.falseNext, merge, d + 1);
      ArmIsShaped(f, nodes, node.falseNext, merge, d);
      AddArmKeepsShape(st3, |st.out| + 1, CodeableNode(d, CElse, Some(node), None), f, d);
      var r := IfBlock(nodes, i, st);
      assert r == AddArm(st3, CodeableNode(d, CElse, Some(node), None), f);
      assert r.out[|st.out|] == st3.out[|st.out|];
    }
  }

  /** The `if` header, the true arm and the `elif` arms form a well shaped
      block whose arm statements are consumed. */
  lemma TrueAndElifArmsShape(nodes: seq<NodeDef>, i: nat, merge: string, st: LinState)
    requires i < |nodes|
    ensures var st3 := ElifArms(nodes, nodes[i].elifs, merge, st.indent, TrueArm(nodes, i, merge, st));
      && |st.out| < |st3.out|
      && st3.out[|st.out|] == CodeableNode(st.indent, CIf, Some(nodes[i]), None)
      && ArmShaped(st3.out[|st.out| + 1..], st.indent)
      && ArmsConsumed(st3.out[|st.out| + 1..], st.indent, st3.skip)
  {
    var node := nodes[i];
    var d := st.indent;
    var t := ProcessIfPaths(nodes, node.trueNext, merge, d + 1);
    ArmIsShaped(t, nodes, node.trueNext, merge, d);
    var st2 := TrueArm(nodes, i, merge, st);
    var st3 := ElifArms(nodes, node.elifs, merge, d, st2);
    ElifArmsShape(nodes, node.elifs, merge, d, st2);
    var lo := |st.out| + 1;
    assert st2.out[..lo] == st.out + [CodeableNode(d, CIf, Some(node), None)];
    assert st3.out[lo..] == t.code + st3.out[|st2.out|..];
    assert st3.skip[..|st2.skip|] == st.skip + t.skip;
    assert st3.skip[|st.skip|..|st.skip| + |t.skip|] == t.skip;
    ArmsConsumedJoin(t.code, st3.out[|st2.out|..], d, t.skip, st3.skip, |st.skip|);
    ArmShapedJoin(t.code, st3.out[|st2.out|..], d);
    assert st3.out[|st.out|] == st2.out[|st.out|];
  }

  /** Appending an arm with a depth-`d` header keeps a block well shaped
      and its arm statements consumed. */
  lemma AddArmKeepsShape(st: LinState, lo: nat, hdr: CodeableNode, f: Arm, d: int)
    requires lo <= |st.out|
    requires hdr.indent == d && (hdr.kind == CElse || hdr.kind == CElif)
    requires ArmShaped(st.out[lo..], d) && ArmsConsumed(st.out[lo..], d, st.skip)
    requires ArmShaped(f.code, d) && ArmsConsumed(f.code, d, f.skip)
    ensures var r := AddArm(st, hdr, f);
      ArmShaped(r.out[lo..], d) && ArmsConsumed(r.out[lo..], d, r.skip)
  {
    var r := AddArm(st, hdr, f);
    var e := [hdr] + f.code;
    assert r.out[lo..] == st.out[lo..] + e;
    assert r.skip[..|st.skip|] == st.skip;
    ArmsConsumedWiden(st.out[lo..], d, st.skip, r.skip);
    assert r.skip[|st.skip|..|st.skip| + |f.skip|] == f.skip;
    ArmsConsumedJoin([hdr], f.code, d, [], f.skip, 0);
    ArmsConsumedJoin([hdr] + f.code, [], d, f.skip, r.skip, |st.skip|);
    assert e + [] == e;
    ArmsConsumedJoin(st.out[lo..], e, d, r.skip, r.skip, 0);
    ArmShapedJoin([hdr], f.code, d);
    ArmShapedJoin(st.out[lo..], e, d);
  }

  /** The block an `if` adds holds an `else` exactly when the `if`'s false
      successor differs from the guessed merge point. */
  lemma IfBlockElse(nodes: seq<NodeDef>, i: nat, st: LinState)
    requires i < |nodes|
    ensures var r := IfBlock(nodes, i, st);
      (exists m :: |st.out| <= m < |r.out| && r.out[m].kind == CElse)
      <==> nodes[i].falseNext != Some(FindCommonDescendant(nodes, i))
  {
    var node := nodes[i];
    var merge := FindCommonDescendant(nodes, i);
    var d := st.indent;
    var t := ProcessIfPaths(nodes, node.trueNext, merge, d + 1);
    ArmIsShaped(t, nodes, node.trueNext, merge, d);
    var st2 := TrueArm(nodes, i, merge, st);
    var st3 := ElifArms(nodes, node.elifs, merge, d, st2);
    var r := IfBlock(nodes, i, st);
    if node.falseNext != Some(merge) {
      var f := ProcessIfPaths(nodes, node.falseNext, merge, d + 1);
      assert r.out == st3.out + [CodeableNode(d, CElse, Some(node), None)] + f.code;
      assert r.out[|st3.out|].kind == CElse;
    } else {
      ElifArmsShape(nodes, node.elifs, merge, d, st2);
      assert r == st3;
      forall m | |st.out| <= m < |st3.out|
        ensures st3.out[m].kind != CElse
      {
        if m < |st2.out| {
          assert st3.out[m] == st2.out[m];
          if m > |st.out| {
            assert st2.out[m] == t.code[m - |st.out| - 1];
          }
        }
      }
    }
  }

  lemma ArmShapedJoin(s1: seq<CodeableNode>, s2: seq<CodeableNode>, d: int)
    requires ArmShaped(s1, d) && ArmShaped(s2, d)
    ensures ArmShaped(s1 + s2, d)
  {
    forall m | 0 <= m < |s1 + s2|
      ensures (s1 + s2)[m] == if m < |s1| then s1[m] else s2[m - |s1|]
    {
    }
  }

  lemma ArmsConsumedWiden(s: seq<CodeableNode>, d: int, k: seq<string>, skip: seq<string>)
    requires ArmsConsumed(s, d, k)
    requires |k| <= |skip| && skip[..|k|] == k
    ensures ArmsConsumed(s, d, skip)
  {
    ArmsConsumedJoin(s, [], d, k, skip, 0);
    assert s + [] == s;
  }

  /** Consumption recorded for two adjacent stretches of statements. */
  lemma ArmsConsumedJoin(s1: seq<CodeableNode>, s2: seq<CodeableNode>, d: int, k1: seq<string>, skip: seq<string>, off: nat)
    requires ArmsConsumed(s1, d, k1)
    requires off + |k1| <= |skip| && skip[off..off + |k1|] == k1
    requires ArmsConsumed(s2, d, skip)
    ensures ArmsConsumed(s1 + s2, d, skip)
  {
    forall m | 0 <= m < |s1 + s2| && (s1 + s2)[m].indent == d + 1 && (s1 + s2)[m].node.Some?
      ensures (s1 + s2)[m].node.value.name in skip
    {
      if m < |s1| {
        var n := s1[m].node.value.name;
        var q :| 0 <= q < |k1| && k1[q] == n;
        assert skip[off + q] == n;
      } else {
        assert (s1 + s2)[m] == s2[m - |s1|];
      }
    }
  }

  /** One iteration of the `for i, node in enumerate(nodes)` loop. */
  function Step(nodes: seq<NodeDef>, i: nat, st: LinState): (r: LinState)
    requires i < |nodes|
    ensures |st.out| <= |r.out| && r.out[..|st.out|] == st.out
    ensures |st.skip| <= |r.skip| && r.skip[..|st.skip|] == st.skip
  {
    var node := nodes[i];
    if node.name in st.skip then st
    else
      match node.kind
      case Start =>
        st.(out := st.out + [CodeableNode(st.indent, CStart, Some(node), None)], indent := st.indent + 1)
      case If => IfBlock(nodes, i, st)
      case Action =>
        st.(out := st.out + [CodeableNode(st.indent, CAction, Some(node), None)])
      case End =>
        st.(out := st.out + [CodeableNode(st.indent, CEnd, Some(node), None)], indent := st.indent - 1)
      case Other(_) => st
  }

  /** The loop state after the first `j` iterations. */
  function StateAt(nodes: seq<NodeDef>, j: nat): LinState
    requires j <= |nodes|
  {
    if j == 0 then LinState([], [], 0) else Step(nodes, j - 1, StateAt(nodes, j - 1))
  }

  /** `pre_process_nodes(node_graph)`. */
  function PreProcessNodes(g: NodeGraph): seq<CodeableNode>
  {
    StateAt(g.nodes, |g.nodes|).out
  }

  // ---------------------------------------------------------------------
  // Properties of the main loop

  /** The statements and the consumed names only ever grow. */
  lemma {:induction false} StateGrows(nodes: seq<NodeDef>, i: nat, j: nat)
    requires i <= j <= |nodes|
    ensures Extends(StateAt(nodes, i), StateAt(nodes, j))
    decreases j - i
  {
    if i < j {
      StateGrows(nodes, i, j - 1);
      ExtendsChain(StateAt(nodes, i), StateAt(nodes, j - 1), StateAt(nodes, j));
    }
  }

  /** The output and the skip list of `a` are prefixes of those of `b`. */
  predicate Extends(a: LinState, b: LinState)
  {
    && |a.out| <= |b.out| && b.out[..|a.out|] == a.out
    && |a.skip| <= |b.skip| && b.skip[..|a.skip|] == a.skip
  }

  lemma ExtendsChain(a: LinState, b: LinState, c: LinState)
    requires Extends(a, b) && Extends(b, c)
    ensures Extends(a, c)
  {
    PrefixChain(a.out, b.out, c.out);
    PrefixChain(a.skip, b.skip, c.skip);
  }

  /** Being a prefix is transitive. */
  lemma PrefixChain<T>(a: seq<T>, b: seq<T>, c: seq<T>)
    requires |a| <= |b| <= |c| && b[..|a|] == a && c[..|b|] == b
    ensures c[..|a|] == a
  {
    assert c[..|a|] == c[..|b|][..|a|];
  }

  /** A node whose name was consumed by an arm of an `if` processed at or
      before position `i` is skipped by the main loop at every later
      position: it is never emitted again at top level. */
  lemma ConsumedNotReemitted(nodes: seq<NodeDef>, i: nat, j: nat)
    requires i < j < |nodes|
    requires nodes[j].name in StateAt(nodes, i + 1).skip
    ensures StateAt(nodes, j + 1) == StateAt(nodes, j)
  {
    StateGrows(nodes, i + 1, j);
    var s := StateAt(nodes, i + 1).skip;
    var t := StateAt(nodes, j).skip;
    var k :| 0 <= k < |s| && s[k] == nodes[j].name;
    assert t[k] == s[k];
  }

  /** The statements the main loop adds at position `i`. */
  function Block(nodes: seq<NodeDef>, i: nat): seq<CodeableNode>
    requires i < |nodes|
  {
    StateGrows(nodes, i, i + 1);
    StateAt(nodes, i + 1).out[|StateAt(nodes, i).out|..]
  }

  /** The block of an `if` that the loop reaches: its header at the current
      depth `d`; `elif`/`else` headers at `d` and every arm statement at
      `d + 1`; every arm statement's node is recorded as consumed; and an
      `else` appears exactly when the false successor differs from the
      guessed merge point. */
  lemma IfBlockShape(nodes: seq<NodeDef>, i: nat)
    requires i < |nodes| && nodes[i].kind == If
    requires nodes[i].name !in StateAt(nodes, i).skip
    ensures var d := StateAt(nodes, i).indent;
      var b := Block(nodes, i);
      && |b| > 0
      && b[0] == CodeableNode(d, CIf, Some(nodes[i]), None)
      && ArmShaped(b[1..], d)
      && ArmsConsumed(b[1..], d, StateAt(nodes, i + 1).skip)
      && ((exists m :: 0 <= m < |b| && b[m].kind == CElse)
          <==> nodes[i].falseNext != Some(FindCommonDescendant(nodes, i)))
      && StateAt(nodes, i + 1).indent == d
  {
    var st := StateAt(nodes, i);
    var r := IfBlock(nodes, i, st);
    assert StateAt(nodes, i + 1) == r;
    IfBlockArms(nodes, i, st);
    IfBlockElse(nodes, i, st);
    var b := Block(nodes, i);
    assert b == r.out[|st.out|..];
    assert b[1..] == r.out[|st.out| + 1..];
    ElseInSuffix(r.out, |st.out|);
  }

  /** An `else` occurs in a suffix exactly when it occurs in the outer
      sequence from the suffix's start on. */
  lemma ElseInSuffix(out: seq<CodeableNode>, k: nat)
    requires k <= |out|
    ensures (exists m :: 0 <= m < |out[k..]| && out[k..][m].kind == CElse)
        <==> (exists m :: k <= m < |out| && out[m].kind == CElse)
  {
    var b := out[k..];
    if exists m :: 0 <= m < |b| && b[m].kind == CElse {
      var m :| 0 <= m < |b| && b[m].kind == CElse;
      assert out[k + m].kind == CElse;
    }
    if exists m :: k <= m < |out| && out[m].kind == CElse {
      var m :| k <= m < |out| && out[m].kind == CElse;
      assert b[m - k].kind == CElse;
    }
  }

  // ---------------------------------------------------------------------
  // Branch-free graphs

  /** Number of START nodes minus number of END nodes in `ns`. */
  function Depth(ns: seq<NodeDef>): int
  {
    if |ns| == 0 then 0
    else Depth(ns[..|ns| - 1]) + (match ns[|ns| - 1].kind
                                  case Start => 1
                                  case End => -1
                                  case _ => 0)
  }

  /** The reference output for a graph without `if` nodes: one statement
      per START, ACTION or END node, in list order, at the depth given by
      the START and END nodes listed before it. */
  function Straight(nodes: seq<NodeDef>, j: nat): seq<CodeableNode>
    requires j <= |nodes|
  {
    if j == 0 then []
    else
      var n := nodes[j - 1];
      Straight(nodes, j - 1)
      + (if n.kind.Other? then [] else [CodeableNode(Depth(nodes[..j - 1]), KindOf(n.kind), Some(n), None)])
  }

  /** Without `if` nodes nothing is ever skipped, START raises the depth by
      one, END lowers it by one, and the output is the reference output. */
  lemma {:induction false} BranchFreeLinearization(nodes: seq<NodeDef>, j: nat)
    requires j <= |nodes|
    requires forall k :: 0 <= k < |nodes| ==> nodes[k].kind != If
    ensures StateAt(nodes, j) == LinState(Straight(nodes, j), [], Depth(nodes[..j]))
  {
    if j > 0 {
      BranchFreeLinearization(nodes, j - 1);
      assert nodes[..j][..j - 1] == nodes[..j - 1];
    }
  }

  // ---------------------------------------------------------------------
  // Authoring order

  function ActionNode(name: string, next: Option<string>): NodeDef
  {
    NodeDef(name, Action, [], [], "", None, [], None, next)
  }

  /** The merge point is guessed from the list order alone: here both arms
      of the `if` at position 0 continue at `m`, yet the guess is `y`, a
      node the `if` never reaches, because an unrelated pair of nodes `x`,
      `y` is listed first. */
  lemma MergeGuessFollowsListOrder()
    ensures var nodes := [NodeDef("c", If, [], [], "p", Some("a"), [], Some("b"), None),
                          ActionNode("x", Some("y")), ActionNode("y", None),
                          ActionNode("a", Some("m")), ActionNode("b", Some("m")), ActionNode("m", None)];
      FindCommonDescendant(nodes, 0) == "y"
  {
    var nodes := [NodeDef("c", If, [], [], "p", Some("a"), [], Some("b"), None),
                  ActionNode("x", Some("y")), ActionNode("y", None),
                  ActionNode("a", Some("m")), ActionNode("b", Some("m")), ActionNode("m", None)];
    assert ScanForMerge(nodes, 1, []) == ScanForMerge(nodes, 2, [Some("y")]);
  }

  /** Arms are collected from the whole node list, including nodes listed
      before the `if`: here the action `a` is emitted at top level and
      then again inside the `if`'s true arm. */
  lemma NodeEmittedTwice()
    ensures var a := ActionNode("a", None);
      var c := NodeDef("c", If, [], [], "p", Some("a"), [], None, None);
      PreProcessNodes(NodeGraph([a, c])) ==
        [CodeableNode(0, CAction, Some(a), None), CodeableNode(0, CIf, Some(c), None),
         CodeableNode(1, CAction, Some(a), None), CodeableNode(0, CElse, Some(c), None)]
  {
    var a := ActionNode("a", None);
    var c := NodeDef("c", If, [], [], "p", Some("a"), [], None, None);
    var nodes := [a, c];
    assert StateAt(nodes, 0) == LinState([], [], 0);
    assert nodes[0] == a && nodes[1] == c;
    assert StateAt(nodes, 1) == Step(nodes, 0, LinState([], [], 0));
    assert StateAt(nodes, 1) == LinState([CodeableNode(0, CAction, Some(a), None)], [], 0);
    assert FindCommonDescendant(nodes, 1) == "";
    assert WalkArm(nodes, 1, None, "", 1) == Arm([], []);
    assert WalkArm(nodes, 0, None, "", 1) == Arm([], []);
    assert WalkArm(nodes, 0, Some("a"), "", 1) == Arm(["a"], [CodeableNode(1, CAction, Some(a), None)]);
  }
}
