/** Python string operations the compiler relies on, with their exact
    semantics: `sep.join`, `str.find`, `str.split(sep)`, `str.replace`,
    `str.strip()`, `str.lower()`, `s * n` and the slice `s[:-n]`.
 */
module Text {

  /** `pat` occurs in `s` starting at index `i`. */
  predicate OccursAt(s: string, i: int, pat: string)
  {
    0 <= i && i + |pat| <= |s| && s[i..i + |pat|] == pat
  }

  /** `pat` occurs somewhere in `s` (Python's `pat in s`). */
  predicate Occurs(s: string, pat: string)
  {
    exists i :: 0 <= i <= |s| && OccursAt(s, i, pat)
  }

  /** `k` is the leftmost occurrence of `pat` in `s` at or after `from`. */
  predicate FirstFrom(s: string, pat: string, from: int, k: int)
  {
    from <= k && OccursAt(s, k, pat) && forall j :: from <= j < k ==> !OccursAt(s, j, pat)
  }

  predicate StartsWith(s: string, pre: string)
  {
    |pre| <= |s| && s[..|pre|] == pre
  }

  predicate EndsWith(s: string, suf: string)
  {
    |suf| <= |s| && s[|s| - |suf|..] == suf
  }

  /** `sep.join(xs)`. */
  function Join(sep: string, xs: seq<string>): string
  {
    if |xs| == 0 then "" else if |xs| == 1 then xs[0] else xs[0] + sep + Join(sep, xs[1..])
  }

  /** `"".join(xs)`. */
  function Concat(xs: seq<string>): string
  {
    if |xs| == 0 then "" else xs[0] + Concat(xs[1..])
  }

  /** `s * n`: a non-positive count gives the empty string. */
  function Repeat(s: string, n: int): string
    decreases if n <= 0 then 0 else n
  {
    if n <= 0 then "" else s + Repeat(s, n - 1)
  }

  /** `s[:-n]`: drops the last `n` characters, or everything when `s` is shorter. */
  function DropTail(s: string, n: nat): string
  {
    if |s| >= n then s[..|s| - n] else ""
  }

  /** The loop `for x in items: out += x + ", "`. */
  function AppendEach(out: string, items: seq<string>): string
    decreases |items|
  {
    if |items| == 0 then out else AppendEach(out + items[0] + ", ", items[1..])
  }

  /** The idiom "append `x + ", "` for each item, then drop the last two
      characters" builds exactly the comma-separated list: no trailing
      separator survives. */
  lemma {:induction false} AppendEachThenDrop(out: string, items: seq<string>)
    requires |items| > 0
    ensures DropTail(AppendEach(out, items), 2) == out + Join(", ", items)
  {
    AppendEachShape(out, items);
    var s := out + Join(", ", items);
    assert AppendEach(out, items) == s + ", ";
    assert (s + ", ")[..|s|] == s;
  }

  lemma {:induction false} AppendEachShape(out: string, items: seq<string>)
    requires |items| > 0
    ensures AppendEach(out, items) == out + Join(", ", items) + ", "
    decreases |items|
  {
    if |items| == 1 {
      assert items[1..] == [];
    } else {
      AppendEachShape(out + items[0] + ", ", items[1..]);
    }
  }

  /** `str.find(pat, i)` for `i <= |s|`: the leftmost index at or after `i`
      where `pat` occurs, or -1. */
  function FindFrom(s: string, pat: string, i: nat): (r: int)
    requires i <= |s|
    ensures r == -1 || FirstFrom(s, pat, i, r)
    ensures r == -1 ==> forall j :: i <= j ==> !OccursAt(s, j, pat)
    decreases |s| - i
  {
    if OccursAt(s, i, pat) then i
    else if i == |s| then -1
    else FindFrom(s, pat, i + 1)
  }

  /** `str.find(pat)`. */
  function Find(s: string, pat: string): (r: int)
    ensures r == -1 <==> !Occurs(s, pat)
    ensures r != -1 ==> FirstFrom(s, pat, 0, r)
  {
    FindFrom(s, pat, 0)
  }

  /** `s.split(sep)` for a non-empty separator. */
  function Split(s: string, sep: string): (parts: seq<string>)
    requires |sep| > 0
    ensures |parts| >= 1
    ensures |parts| >= 2 <==> Occurs(s, sep)
    decreases |s|
  {
    var k := Find(s, sep);
    if k < 0 then [s] else [s[..k]] + Split(s[k + |sep|..], sep)
  }

  /** The first piece of a split is everything before the first separator. */
  lemma SplitHead(s: string, sep: string)
    requires |sep| > 0
    ensures Find(s, sep) >= 0 ==> Split(s, sep)[0] == s[..Find(s, sep)]
    ensures Find(s, sep) < 0 ==> Split(s, sep) == [s]
  {
  }

  /** Splitting at a separator that is the first occurrence peels off the
      text before it. */
  lemma SplitAtFirst(a: string, sep: string, b: string)
    requires |sep| > 0
    requires forall j :: 0 <= j < |a| ==> !OccursAt(a + sep + b, j, sep)
    ensures Split(a + sep + b, sep) == [a] + Split(b, sep)
  {
    var s := a + sep + b;
    assert s[|a|..|a| + |sep|] == sep;
    assert OccursAt(s, |a|, sep);
    var k := Find(s, sep);
    assert k == |a|;
    assert s[..k] == a;
    assert s[k + |sep|..] == b;
  }

  /** Splitting on a single character that does not occur in `a`. */
  lemma SplitOnFreshChar(a: string, c: char, b: string)
    requires c !in a
    ensures Split(a + [c] + b, [c]) == [a] + Split(b, [c])
  {
    var s := a + [c] + b;
    forall j | 0 <= j < |a|
      ensures !OccursAt(s, j, [c])
    {
      assert s[j] == a[j];
      assert s[j..j + 1] == [s[j]];
    }
    SplitAtFirst(a, [c], b);
  }

  /** A string with no occurrence of the separator splits into itself. */
  lemma SplitNoSep(s: string, sep: string)
    requires |sep| > 0
    requires !Occurs(s, sep)
    ensures Split(s, sep) == [s]
  {
  }

  /** `str.replace(target, repl)` with Python's semantics: occurrences are
      replaced left to right without overlap, and an empty `target` inserts
      `repl` before every character and at the end. */
  function ReplaceAll(s: string, target: string, repl: string): string
    decreases |s|
  {
    if |target| == 0 then
      if |s| == 0 then repl else repl + [s[0]] + ReplaceAll(s[1..], target, repl)
    else if |s| < |target| then s
    else if s[..|target|] == target then repl + ReplaceAll(s[|target|..], target, repl)
    else [s[0]] + ReplaceAll(s[1..], target, repl)
  }

  /** Replacing a pattern that does not occur changes nothing. */
  lemma {:induction false} ReplaceAbsent(s: string, target: string, repl: string)
    requires |target| > 0
    requires !Occurs(s, target)
    ensures ReplaceAll(s, target, repl) == s
    decreases |s|
  {
    if |s| >= |target| {
      assert !OccursAt(s, 0, target);
      var t := s[1..];
      forall i | true
        ensures !OccursAt(t, i, target)
      {
        if OccursAt(t, i, target) {
          assert s[i + 1..i + 1 + |target|] == t[i..i + |target|];
          assert OccursAt(s, i + 1, target);
        }
      }
      ReplaceAbsent(t, target, repl);
    }
  }

  /** The text before the leftmost occurrence is kept, that occurrence is
      replaced, and the scan resumes right after it. */
  lemma {:induction false} ReplaceAtFirst(a: string, target: string, b: string, repl: string)
    requires |target| > 0
    requires forall j :: 0 <= j < |a| ==> !OccursAt(a + target + b, j, target)
    ensures ReplaceAll(a + target + b, target, repl) == a + repl + ReplaceAll(b, target, repl)
    decreases |a|
  {
    var s := a + target + b;
    if |a| == 0 {
      assert s == target + b;
      assert s[..|target|] == target;
      assert s[|target|..] == b;
    } else {
      var t := a[1..] + target + b;
      assert s == [a[0]] + t;
      assert !OccursAt(s, 0, target);
      forall j | 0 <= j < |a[1..]|
        ensures !OccursAt(t, j, target)
      {
        assert t[j..j + |target|] == s[j + 1..j + 1 + |target|];
        assert !OccursAt(s, j + 1, target);
      }
      ReplaceAtFirst(a[1..], target, b, repl);
      calc {
        ReplaceAll(s, target, repl);
        { assert s[1..] == t; }
        [a[0]] + ReplaceAll(t, target, repl);
        [a[0]] + (a[1..] + repl + ReplaceAll(b, target, repl));
        { assert [a[0]] + a[1..] == a; }
        a + repl + ReplaceAll(b, target, repl);
      }
    }
  }

  /** Python's `str.isspace` for one character. */
  predicate IsSpace(c: char)
  {
    || c == ' ' || ('\t' <= c <= '\r') || ('\U{1C}' <= c <= '\U{1F}')
    || c == '\U{85}' || c == '\U{A0}' || c == '\U{1680}'
    || ('\U{2000}' <= c <= '\U{200A}') || c == '\U{2028}' || c == '\U{2029}'
    || c == '\U{202F}' || c == '\U{205F}' || c == '\U{3000}'
  }

  function StripLeft(s: string): (r: string)
    ensures |r| <= |s| && s[|s| - |r|..] == r
    ensures |r| > 0 ==> !IsSpace(r[0])
  {
    if |s| > 0 && IsSpace(s[0]) then StripLeft(s[1..]) else s
  }

  function StripRight(s: string): (r: string)
    ensures |r| <= |s| && s[..|r|] == r
    ensures |r| > 0 ==> !IsSpace(r[|r| - 1])
  {
    if |s| > 0 && IsSpace(s[|s| - 1]) then StripRight(s[..|s| - 1]) else s
  }

  /** `str.strip()`: drops leading and trailing whitespace. */
  function Strip(s: string): (r: string)
    ensures |r| > 0 ==> !IsSpace(r[0]) && !IsSpace(r[|r| - 1])
  {
    StripRight(StripLeft(s))
  }

  predicate IsUpper(c: char)
  {
    'A' <= c <= 'Z'
  }

  function LowerChar(c: char): (d: char)
    ensures !IsUpper(d)
  {
    if IsUpper(c) then (c as int + 32) as char else c
  }

  /** `str.lower()` on the ASCII letters; every other character is kept. */
  function Lower(s: string): (r: string)
    ensures |r| == |s|
    ensures forall i :: 0 <= i < |s| ==> r[i] == LowerChar(s[i])
  {
    seq(|s|, i requires 0 <= i < |s| => LowerChar(s[i]))
  }
  /** Replacing a one-character pattern, one character at a time. */
  lemma ReplaceCharCons(s: string, c: char, repl: string)
    requires |s| > 0
    ensures ReplaceAll(s, [c], repl) == (if s[0] == c then repl else [s[0]]) + ReplaceAll(s[1..], [c], repl)
  {
    assert s[..1] == [s[0]];
  }

  /** Replacing a one-character pattern distributes over concatenation. */
  lemma {:induction false} ReplaceCharAppend(a: string, b: string, c: char, repl: string)
    ensures ReplaceAll(a + b, [c], repl) == ReplaceAll(a, [c], repl) + ReplaceAll(b, [c], repl)
    decreases |a|
  {
    if |a| == 0 {
      assert a + b == b;
    } else {
      var h := if a[0] == c then repl else [a[0]];
      var ab := a + b;
      ReplaceCharCons(ab, c, repl);
      ReplaceCharCons(a, c, repl);
      assert ab[0] == a[0];
      assert ab[1..] == a[1..] + b;
      ReplaceCharAppend(a[1..], b, c, repl);
      calc {
        ReplaceAll(ab, [c], repl);
        h + ReplaceAll(a[1..] + b, [c], repl);
        h + (ReplaceAll(a[1..], [c], repl) + ReplaceAll(b, [c], repl));
        (h + ReplaceAll(a[1..], [c], repl)) + ReplaceAll(b, [c], repl);
      }
    }
  }

  lemma LowerAppend(a: string, b: string)
    ensures Lower(a + b) == Lower(a) + Lower(b)
  {
  }

  /** Stripping a string that neither starts nor ends with whitespace
      changes nothing. */
  lemma StripUnchanged(s: string)
    requires |s| > 0 ==> !IsSpace(s[0]) && !IsSpace(s[|s| - 1])
    ensures Strip(s) == s
  {
  }
  /** Joining lines free of the separator character and splitting again
      gives the lines back, whatever follows a final separator. */
  lemma {:induction false} SplitJoinPrefix(xs: seq<string>, c: char, rest: string)
    requires |xs| > 0
    requires forall k :: 0 <= k < |xs| ==> c !in xs[k]
    ensures Split(Join([c], xs) + [c] + rest, [c]) == xs + Split(rest, [c])
    decreases |xs|
  {
    if |xs| == 1 {
      SplitOnFreshChar(xs[0], c, rest);
    } else {
      var t := Join([c], xs[1..]) + [c] + rest;
      assert Join([c], xs) + [c] + rest == xs[0] + [c] + t;
      SplitOnFreshChar(xs[0], c, t);
      SplitJoinPrefix(xs[1..], c, rest);
      assert [xs[0]] + xs[1..] == xs;
    }
  }

  /** Splitting a join of separator-free lines gives the lines back. */
  lemma {:induction false} SplitJoin(xs: seq<string>, c: char)
    requires |xs| > 0
    requires forall k :: 0 <= k < |xs| ==> c !in xs[k]
    ensures Split(Join([c], xs), [c]) == xs
    decreases |xs|
  {
    if |xs| == 1 {
      assert c !in xs[0];
      assert !Occurs(xs[0], [c]) by {
        forall i | 0 <= i <= |xs[0]|
          ensures !OccursAt(xs[0], i, [c])
        {
          if i < |xs[0]| {
            assert xs[0][i..i + 1] == [xs[0][i]];
          }
        }
      }
      SplitNoSep(xs[0], [c]);
    } else {
      SplitOnFreshChar(xs[0], c, Join([c], xs[1..]));
      SplitJoin(xs[1..], c);
      assert [xs[0]] + xs[1..] == xs;
    }
  }
  /** The first two lines of a text whose first two lines are `d` and `e`. */
  lemma FirstTwoLines(d: string, e: string, rest: string)
    requires '\n' !in d && '\n' !in e
    ensures var lines := Split(d + "\n" + e + "\n" + rest, "\n");
      |lines| >= 2 && lines[0] == d && lines[1] == e
  {
    var s := d + "\n" + e + "\n" + rest;
    assert s == d + ['\n'] + (e + "\n" + rest);
    SplitOnFreshChar(d, '\n', e + "\n" + rest);
    assert e + "\n" + rest == e + ['\n'] + rest;
    SplitOnFreshChar(e, '\n', rest);
  }
}
