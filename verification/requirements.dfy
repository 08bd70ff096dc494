/** `generate_requirements_txt` (codex/compile.py): the dependency manifest
    of a compiled graph.  Packages are grouped by name in order of first
    appearance; a name declared several times keeps only its first
    `(version, specifier)` pin.
 */
module Requirements {
  import opened Basics
  import opened Text

  /** A declared dependency: its name and optional version and specifier. */
  datatype RequiredPackage = RequiredPackage(packageName: string, version: Option<string>, specifier: Option<string>)

  /** One `(version, specifier)` pair appended to the grouping list. */
  datatype Pin = Pin(version: Option<string>, specifier: Option<string>)

  /** One key of the `defaultdict(list)` with the pins collected for it. */
  datatype Entry = Entry(name: string, pins: seq<Pin>)

  function PinOf(p: RequiredPackage): Pin
  {
    Pin(p.version, p.specifier)
  }

  function PackageNames(ps: seq<RequiredPackage>): (r: seq<string>)
    ensures |r| == |ps|
    ensures forall i :: 0 <= i < |ps| ==> r[i] == ps[i].packageName
  {
    seq(|ps|, i requires 0 <= i < |ps| => ps[i].packageName)
  }

  function Keys(es: seq<Entry>): (r: seq<string>)
    ensures |r| == |es|
    ensures forall i :: 0 <= i < |es| ==> r[i] == es[i].name
  {
    seq(|es|, i requires 0 <= i < |es| => es[i].name)
  }

  predicate Distinct(xs: seq<string>)
  {
    forall i, j :: 0 <= i < j < |xs| ==> xs[i] != xs[j]
  }

  // ---------------------------------------------------------------------
  // The aggregation loop

  /** `resolved_packages[name].append(pin)` on a dict that keeps insertion
      order: an existing key gets the pin at the end of its list, a new key
      goes last. */
  function AddPin(es: seq<Entry>, name: string, pin: Pin): (r: seq<Entry>)
    ensures |r| == |es| || |r| == |es| + 1
    decreases |es|
  {
    if |es| == 0 then [Entry(name, [pin])]
    else if es[0].name == name then [es[0].(pins := es[0].pins + [pin])] + es[1..]
    else [es[0]] + AddPin(es[1..], name, pin)
  }

  /** The dictionary after the `for package in packages` loop. */
  function Aggregate(ps: seq<RequiredPackage>): seq<Entry>
  {
    if |ps| == 0 then []
    else AddPin(Aggregate(ps[..|ps| - 1]), ps[|ps| - 1].packageName, PinOf(ps[|ps| - 1]))
  }

  /** One line of the manifest, from the first pin of a package. */
  function RequirementLine(name: string, pin: Pin): (line: string)
    ensures StartsWith(line, name)
    ensures !Truthy(pin.version) <==> line == name
  {
    if Truthy(pin.version) && Truthy(pin.specifier) then name + pin.specifier.value + pin.version.value
    else if Truthy(pin.version) then name + "==" + pin.version.value
    else name
  }

  function Lines(es: seq<Entry>): (r: seq<string>)
    requires forall k :: 0 <= k < |es| ==> |es[k].pins| > 0
    ensures |r| == |es|
  {
    seq(|es|, k requires 0 <= k < |es| => RequirementLine(es[k].name, es[k].pins[0]))
  }

  /** `generate_requirements_txt(packages)`. */
  function GenerateRequirementsTxt(ps: seq<RequiredPackage>): string
  {
    AggregateNonEmpty(ps);
    Join("\n", Lines(Aggregate(ps)))
  }

  // ---------------------------------------------------------------------
  // Reference definitions

  /** The distinct elements of `xs` in order of first occurrence. */
  function Dedup(xs: seq<string>): seq<string>
  {
    if |xs| == 0 then []
    else if xs[|xs| - 1] in xs[..|xs| - 1] then Dedup(xs[..|xs| - 1])
    else Dedup(xs[..|xs| - 1]) + [xs[|xs| - 1]]
  }

  /** The pins of all packages named `name`, in list order. */
  function PinsOf(ps: seq<RequiredPackage>, name: string): seq<Pin>
  {
    if |ps| == 0 then []
    else PinsOf(ps[..|ps| - 1], name) + (if ps[|ps| - 1].packageName == name then [PinOf(ps[|ps| - 1])] else [])
  }

  /** `i` is the first position of a package named `name`. */
  predicate FirstNamed(ps: seq<RequiredPackage>, i: int, name: string)
  {
    0 <= i < |ps| && ps[i].packageName == name && forall j :: 0 <= j < i ==> ps[j].packageName != name
  }

  // ---------------------------------------------------------------------
  // Lemmas

  lemma {:induction false} DedupElements(xs: seq<string>)
    ensures forall x :: x in Dedup(xs) <==> x in xs
    ensures Distinct(Dedup(xs))
  {
    if |xs| > 0 {
      var p := xs[..|xs| - 1];
      DedupElements(p);
      assert xs == p + [xs[|xs| - 1]];
    }
  }

  lemma {:induction false} AddPinKeys(es: seq<Entry>, name: string, pin: Pin)
    ensures Keys(AddPin(es, name, pin)) == if name in Keys(es) then Keys(es) else Keys(es) + [name]
    decreases |es|
  {
    var r := AddPin(es, name, pin);
    if |es| == 0 {
      assert Keys(r) == [name];
    } else if es[0].name == name {
      assert Keys(es)[0] == name;
      assert |r| == |es|;
      forall k | 0 <= k < |es| ensures Keys(r)[k] == Keys(es)[k] {
        if k > 0 { assert r[k] == es[k]; }
      }
    } else {
      var t := AddPin(es[1..], name, pin);
      AddPinKeys(es[1..], name, pin);
      assert r == [es[0]] + t;
      assert Keys(es) == [es[0].name] + Keys(es[1..]);
      assert Keys(r) == [es[0].name] + Keys(t);
      assert name in Keys(es) <==> name in Keys(es[1..]);
    }
  }

  /** The grouping keeps one entry per distinct package name, in order of
      first appearance. */
  lemma {:induction false} AggregateKeys(ps: seq<RequiredPackage>)
    ensures Keys(Aggregate(ps)) == Dedup(PackageNames(ps))
  {
    if |ps| > 0 {
      var p := ps[..|ps| - 1];
      AggregateKeys(p);
      var last := ps[|ps| - 1];
      AddPinKeys(Aggregate(p), last.packageName, PinOf(last));
      assert PackageNames(ps)[..|ps| - 1] == PackageNames(p);
      DedupElements(PackageNames(p));
    }
  }

  /** Appending a pin to a dictionary with distinct keys: the entry of that
      name gets the pin at the end, every other entry is untouched, and a
      new name gets a one-pin entry at the end. */
  lemma {:induction false} AddPinLookup(es: seq<Entry>, name: string, pin: Pin)
    requires Distinct(Keys(es))
    ensures var r := AddPin(es, name, pin);
      && (forall k :: 0 <= k < |es| ==>
            r[k].name == es[k].name && r[k].pins == es[k].pins + (if es[k].name == name then [pin] else []))
      && (|r| == |es| + 1 ==> r[|es|] == Entry(name, [pin]) && name !in Keys(es))
    decreases |es|
  {
    if |es| > 0 {
      var r := AddPin(es, name, pin);
      if es[0].name == name {
        forall k | 1 <= k < |es|
          ensures es[k].name != name
        {
          assert Keys(es)[0] != Keys(es)[k];
        }
      } else {
        var t := es[1..];
        assert Distinct(Keys(t)) by {
          forall i, j | 0 <= i < j < |t|
            ensures Keys(t)[i] != Keys(t)[j]
          {
            assert Keys(es)[i + 1] != Keys(es)[j + 1];
          }
        }
        AddPinLookup(t, name, pin);
        assert r == [es[0]] + AddPin(t, name, pin);
        forall k | 1 <= k < |es|
          ensures r[k] == AddPin(t, name, pin)[k - 1]
        {
        }
        if |r| == |es| + 1 {
          assert r[|es|] == AddPin(t, name, pin)[|t|];
          assert name !in Keys(t);
          forall k | 0 <= k < |es|
            ensures Keys(es)[k] != name
          {
            if k > 0 {
              assert Keys(es)[k] == Keys(t)[k - 1];
            }
          }
        }
      }
    }
  }

  lemma {:induction false} PinsOfAbsent(ps: seq<RequiredPackage>, name: string)
    requires name !in PackageNames(ps)
    ensures PinsOf(ps, name) == []
  {
    if |ps| > 0 {
      var p := ps[..|ps| - 1];
      assert PackageNames(ps)[..|ps| - 1] == PackageNames(p);
      assert ps[|ps| - 1].packageName == PackageNames(ps)[|ps| - 1];
      PinsOfAbsent(p, name);
    }
  }

  /** Every entry of the grouping holds exactly the pins of the packages of
      its name, in list order. */
  lemma {:induction false} AggregatePins(ps: seq<RequiredPackage>)
    ensures Distinct(Keys(Aggregate(ps)))
    ensures forall k :: 0 <= k < |Aggregate(ps)| ==> Aggregate(ps)[k].pins == PinsOf(ps, Aggregate(ps)[k].name)
  {
    AggregateKeys(ps);
    DedupElements(PackageNames(ps));
    if |ps| > 0 {
      var p := ps[..|ps| - 1];
      var last := ps[|ps| - 1];
      AggregatePins(p);
      var es := Aggregate(p);
      var r := Aggregate(ps);
      AddPinLookup(es, last.packageName, PinOf(last));
      forall k | 0 <= k < |r|
        ensures r[k].pins == PinsOf(ps, r[k].name)
      {
        if k == |es| {
          AggregateKeys(p);
          DedupElements(PackageNames(p));
          PinsOfAbsent(p, last.packageName);
        }
      }
    }
  }

  lemma AggregateNonEmpty(ps: seq<RequiredPackage>)
    ensures forall k :: 0 <= k < |Aggregate(ps)| ==> |Aggregate(ps)[k].pins| > 0
  {
    AggregatePins(ps);
    AggregateKeys(ps);
    DedupElements(PackageNames(ps));
    forall k | 0 <= k < |Aggregate(ps)|
      ensures |Aggregate(ps)[k].pins| > 0
    {
      var name := Aggregate(ps)[k].name;
      assert name in Keys(Aggregate(ps));
      var i :| 0 <= i < |ps| && PackageNames(ps)[i] == name;
      PinsOfFirst(ps, FirstIndex(ps, name, i), name);
    }
  }

  /** The first position of a package named `name`, given one position. */
  function FirstIndex(ps: seq<RequiredPackage>, name: string, i: nat): (f: nat)
    requires i < |ps| && ps[i].packageName == name
    ensures FirstNamed(ps, f, name)
  {
    if exists j :: 0 <= j < i && ps[j].packageName == name then
      var j :| 0 <= j < i && ps[j].packageName == name;
      FirstIndex(ps, name, j)
    else i
  }

  /** The first pin collected for a name is that of the first package
      with that name. */
  lemma {:induction false} PinsOfFirst(ps: seq<RequiredPackage>, i: nat, name: string)
    requires FirstNamed(ps, i, name)
    ensures |PinsOf(ps, name)| > 0 && PinsOf(ps, name)[0] == PinOf(ps[i])
  {
    var p := ps[..|ps| - 1];
    if i == |ps| - 1 {
      assert name !in PackageNames(p);
      PinsOfAbsent(p, name);
    } else {
      assert FirstNamed(p, i, name);
      PinsOfFirst(p, i, name);
    }
  }

  /** The manifest has one line per distinct package name, in order of
      first appearance, joined by newlines; each line is formatted from the
      first pin declared for that name, later pins being ignored. */
  lemma RequirementsManifest(ps: seq<RequiredPackage>)
    ensures var names := Dedup(PackageNames(ps));
      exists lines: seq<string> ::
        && GenerateRequirementsTxt(ps) == Join("\n", lines)
        && |lines| == |names|
        && forall k :: 0 <= k < |lines| ==>
             exists i :: FirstNamed(ps, i, names[k]) && lines[k] == RequirementLine(names[k], PinOf(ps[i]))
  {
    AggregateKeys(ps);
    AggregatePins(ps);
    AggregateNonEmpty(ps);
    DedupElements(PackageNames(ps));
    var es := Aggregate(ps);
    var names := Dedup(PackageNames(ps));
    var lines := Lines(es);
    forall k | 0 <= k < |lines|
      ensures exists i :: FirstNamed(ps, i, names[k]) && lines[k] == RequirementLine(names[k], PinOf(ps[i]))
    {
      assert names[k] == Keys(es)[k] == es[k].name;
      assert names[k] in PackageNames(ps);
      var i0 :| 0 <= i0 < |ps| && PackageNames(ps)[i0] == names[k];
      var i := FirstIndex(ps, names[k], i0);
      PinsOfFirst(ps, i, names[k]);
    }
  }

  /** Two declarations of one package: the first pin is kept and the later
      one dropped; a package with neither version nor specifier is listed
      by name alone. */
  lemma FirstPinWinsExample()
    ensures GenerateRequirementsTxt([
              RequiredPackage("requests", Some("2.31"), Some(">=")),
              RequiredPackage("fastapi", None, None),
              RequiredPackage("requests", Some("1.0"), None)])
            == "requests>=2.31\nfastapi"
  {
    var ps := [RequiredPackage("requests", Some("2.31"), Some(">=")),
               RequiredPackage("fastapi", None, None),
               RequiredPackage("requests", Some("1.0"), None)];
    var e1 := Entry("requests", [Pin(Some("2.31"), Some(">="))]);
    var e2 := Entry("fastapi", [Pin(None, None)]);
    assert "requests"[0] != "fastapi"[0];
    assert ps[..2][..1] == [ps[0]];
    assert ps[..2] == [ps[0], ps[1]];
    assert ps[..1] == [ps[0]];
    assert Aggregate([ps[0]]) == [e1];
    assert AddPin([e1], "fastapi", Pin(None, None)) == [e1] + AddPin([], "fastapi", Pin(None, None));
    assert Aggregate(ps[..2]) == [e1, e2];
    assert AddPin([e1, e2], "requests", Pin(Some("1.0"), None)) == [e1.(pins := e1.pins + [Pin(Some("1.0"), None)])] + [e2];
    var es := Aggregate(ps);
    assert es == [e1.(pins := e1.pins + [Pin(Some("1.0"), None)]), e2];
    assert es[0].pins[0] == Pin(Some("2.31"), Some(">="));
    assert RequirementLine("requests", Pin(Some("2.31"), Some(">="))) == "requests>=2.31";
    assert Lines(es) == ["requests>=2.31", "fastapi"];
    assert Join("\n", ["requests>=2.31", "fastapi"]) == "requests>=2.31" + "\n" + Join("\n", ["fastapi"]);
  }
}
