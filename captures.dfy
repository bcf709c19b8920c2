/** Turning the query's captures into containers and references: the
    capture loop of `analyze_file`. */
module Captures {
  import opened Wrappers
  import opened Text
  import opened SyntaxTree
  import opened Complexity

  /** One `(node, tag)` pair of `query.captures`: the tag, the captured
      node's subtree, its text and its 0-based start and end rows. */
  datatype Capture = Capture(tag: string, node: Tree, text: string, startRow: nat, endRow: nat)

  /** A function, method, class, struct, interface or other definition,
      with 1-based inclusive lines, the names it calls (a set, as in the
      source) and the names it extends (in order, duplicates kept);
      `bases` is the source's `extends` key, a Dafny keyword. */
  datatype Container = Container(
    kind: string, name: string, startLine: nat, endLine: nat,
    complexity: nat, calls: set<string>, bases: seq<string>)

  /** A called or extended name and the 1-based line it occurs on. */
  datatype Reference = Reference(name: string, line: nat)

  /** Everything the capture loop collects, in capture order. */
  datatype Extraction = Extraction(
    containers: seq<Container>, calls: seq<Reference>,
    bases: seq<Reference>, imports: seq<string>)

  /** A `definition` tag without a dot: `tag.split(".")[1]` fails. */
  datatype CaptureError = MissingKind(tag: string)

  /** Which branch of the capture loop a tag takes, tested in the source's
      order. */
  datatype Category = Definition(kind: string) | CallRef | ExtendsRef | ImportRef | Unused | Malformed

  function Classify(tag: string): Category {
    if StartsWith(tag, "definition") then
      match SecondSegment(tag)
      case Some(kind) => Definition(kind)
      case None => Malformed
    else if StartsWith(tag, "reference.call") then CallRef
    else if StartsWith(tag, "reference.extends") then ExtendsRef
    else if StartsWith(tag, "reference.import") then ImportRef
    else Unused
  }

  predicate IsCallable(kind: string) {
    kind == "function" || kind == "method"
  }

  const NoCaptures := Extraction([], [], [], [])

  /** The container a definition capture of kind `kind` opens: the node's
      text as name, rows plus one as lines, the estimate for functions and
      methods and 0 for every other kind, no calls and no bases yet. */
  function NewContainer(kind: string, c: Capture): Container {
    Container(kind, c.text, c.startRow + 1, c.endRow + 1, Estimate(kind, c.node), {}, [])
  }

  /** The complexity recorded for a definition: the estimate for functions
      and methods, 0 for every other kind. */
  function Estimate(kind: string, node: Tree): nat {
    if IsCallable(kind) then Score(node) else 0
  }

  /** What one capture adds to what has been collected. */
  function Collected(x: Extraction, c: Capture): Result<Extraction, CaptureError> {
    match Classify(c.tag)
    case Definition(kind) => Success(x.(containers := x.containers + [NewContainer(kind, c)]))
    case CallRef => Success(x.(calls := x.calls + [Reference(c.text, c.startRow + 1)]))
    case ExtendsRef => Success(x.(bases := x.bases + [Reference(c.text, c.startRow + 1)]))
    case ImportRef => Success(x.(imports := x.imports + [c.text]))
    case Unused => Success(x)
    case Malformed => Failure(MissingKind(c.tag))
  }

  /** The result of the capture loop over `caps`, one capture at a time. */
  function Extract(caps: seq<Capture>): Result<Extraction, CaptureError>
    decreases |caps|
  {
    if caps == [] then Success(NoCaptures)
    else
      match Extract(caps[..|caps| - 1])
      case Failure(e) => Failure(e)
      case Success(x) => Collected(x, caps[|caps| - 1])
  }

  /** Once a capture has failed, the rest of the captures are never looked at. */
  lemma {:induction false} FailureStops(caps: seq<Capture>, i: nat)
    requires i <= |caps| && Extract(caps[..i]).Failure?
    ensures Extract(caps) == Extract(caps[..i])
    decreases |caps| - i
  {
    if i < |caps| {
      assert caps[..|caps| - 1][..i] == caps[..i];
      FailureStops(caps[..|caps| - 1], i);
    } else {
      assert caps[..i] == caps;
    }
  }

  /** The capture loop of `analyze_file`. */
  method Collect(captures: seq<Capture>) returns (r: Result<Extraction, CaptureError>)
    ensures r == Extract(captures)
  {
    var collected := NoCaptures;
    for i := 0 to |captures|
      invariant Extract(captures[..i]) == Success(collected)
    {
      assert captures[..i + 1][..i] == captures[..i];
      var next := CollectOne(collected, captures[i]);
      if next.Failure? {
        FailureStops(captures, i + 1);
        return next;
      }
      collected := next.value;
    }
    assert captures[..|captures|] == captures;
    r := Success(collected);
  }

  /** The body of the capture loop: what one capture adds. */
  method CollectOne(x: Extraction, c: Capture) returns (r: Result<Extraction, CaptureError>)
    ensures r == Collected(x, c)
  {
    var text := c.text;
    var startLine := c.startRow + 1;
    if StartsWith(c.tag, "definition") {
      var segment := SecondSegment(c.tag);
      if segment.None? {
        assert Classify(c.tag) == Malformed;
        return Failure(MissingKind(c.tag));
      }
      var kind := segment.value;
      assert Classify(c.tag) == Definition(kind);
      var cont := OpenContainer(kind, c);
      r := Success(x.(containers := x.containers + [cont]));
    } else if StartsWith(c.tag, "reference.call") {
      assert Classify(c.tag) == CallRef;
      r := Success(x.(calls := x.calls + [Reference(text, startLine)]));
    } else if StartsWith(c.tag, "reference.extends") {
      assert Classify(c.tag) == ExtendsRef;
      r := Success(x.(bases := x.bases + [Reference(text, startLine)]));
    } else if StartsWith(c.tag, "reference.import") {
      assert Classify(c.tag) == ImportRef;
      r := Success(x.(imports := x.imports + [text]));
    } else {
      assert Classify(c.tag) == Unused;
      r := Success(x);
    }
  }

  /** The container a definition opens, its complexity computed by the
      cursor walk for functions and methods only. */
  method OpenContainer(kind: string, c: Capture) returns (cont: Container)
    ensures cont == NewContainer(kind, c)
  {
    var comp := 0;
    if kind == "function" || kind == "method" {
      ghost var tested;
      comp, tested := CalculateComplexity(c.node);
    }
    cont := Container(kind, c.text, c.startRow + 1, c.endRow + 1, comp, {}, []);
  }

  /** Collecting two runs of captures one after the other. */
  function Join(x: Extraction, y: Extraction): Extraction {
    Extraction(x.containers + y.containers, x.calls + y.calls, x.bases + y.bases, x.imports + y.imports)
  }

  /** Captures are collected in order: what `a + b` yields is what `a`
      yields followed by what `b` yields, and the first malformed tag wins. */
  lemma {:induction false} ExtractAppend(a: seq<Capture>, b: seq<Capture>)
    ensures Extract(a + b) ==
      match Extract(a)
      case Failure(e) => Failure(e)
      case Success(x) =>
        match Extract(b)
        case Failure(e) => Failure(e)
        case Success(y) => Success(Join(x, y))
    decreases |b|
  {
    if b == [] {
      assert a + b == a;
      var x := Extract(a);
      if x.Success? {
        assert Join(x.value, NoCaptures) == x.value;
      }
    } else {
      var b' := b[..|b| - 1];
      var c := b[|b| - 1];
      assert (a + b)[..|a + b| - 1] == a + b';
      assert (a + b)[|a + b| - 1] == c;
      ExtractAppend(a, b');
      if Extract(a).Success? && Extract(b').Success? {
        CollectedJoin(Extract(a).value, Extract(b').value, c);
      }
    }
  }

  /** One capture after two joined runs acts on the second run only. */
  lemma CollectedJoin(x: Extraction, y: Extraction, c: Capture)
    ensures Collected(Join(x, y), c) ==
      match Collected(y, c)
      case Failure(e) => Failure(e)
      case Success(y') => Success(Join(x, y'))
  {
    match Classify(c.tag)
    case Definition(kind) =>
      var d := NewContainer(kind, c);
      assert (x.containers + y.containers) + [d] == x.containers + (y.containers + [d]);
    case CallRef =>
      var d := Reference(c.text, c.startRow + 1);
      assert (x.calls + y.calls) + [d] == x.calls + (y.calls + [d]);
    case ExtendsRef =>
      var d := Reference(c.text, c.startRow + 1);
      assert (x.bases + y.bases) + [d] == x.bases + (y.bases + [d]);
    case ImportRef =>
      assert (x.imports + y.imports) + [c.text] == x.imports + (y.imports + [c.text]);
    case Unused =>
    case Malformed =>
  }

  /** What a single capture yields is what it adds to nothing. */
  lemma SingleCapture(c: Capture)
    ensures Extract([c]) == Collected(NoCaptures, c)
  {
    assert [c][..0] == [];
  }

  /** The tag the query gives a definition of kind `kind`. */
  function DefinitionTag(kind: string): string {
    "definition." + kind
  }

  /** A `definition.<k>` capture yields one container: kind `k`, the node's
      text as name, the rows plus one as lines, the estimate for functions
      and methods and 0 otherwise, no calls and no extends. */
  lemma DefinitionCapture(c: Capture, k: string)
    requires c.tag == DefinitionTag(k) && '.' !in k
    ensures Extract([c]) == Success(Extraction(
      [Container(k, c.text, c.startRow + 1, c.endRow + 1, Estimate(k, c.node), {}, [])],
      [], [], []))
  {
    OneContainer(c, k);
    var d := Container(k, c.text, c.startRow + 1, c.endRow + 1, Estimate(k, c.node), {}, []);
    assert NewContainer(k, c) == d;
    assert [NewContainer(k, c)] == [d];
  }

  lemma OneContainer(c: Capture, k: string)
    requires c.tag == DefinitionTag(k) && '.' !in k
    ensures Extract([c]) == Success(Extraction([NewContainer(k, c)], [], [], []))
  {
    ClassifyDefinition(k);
    SingleCapture(c);
    assert NoCaptures.containers + [NewContainer(k, c)] == [NewContainer(k, c)];
  }

  /** `definition.<k>` is classified as a definition of kind `k`. */
  lemma ClassifyDefinition(k: string)
    requires '.' !in k
    ensures Classify(DefinitionTag(k)) == Definition(k)
  {
    var tag := DefinitionTag(k);
    assert "definition" + "." + k + "" == tag;
    SecondSegmentOf("definition", k, "");
    assert StartsWith(tag, "definition") by {
      assert tag[..10] == "definition";
    }
  }

  /** A `reference.call` capture yields one call reference, on the node's
      start row plus one. */
  lemma CallCapture(c: Capture)
    requires c.tag == "reference.call"
    ensures Extract([c]) == Success(Extraction([], [Reference(c.text, c.startRow + 1)], [], []))
  {
    assert c.tag[..14] == "reference.call";
    SingleCapture(c);
    assert !StartsWith(c.tag, "definition") by {
      assert c.tag[..10][0] != "definition"[0];
    }
    assert StartsWith(c.tag, "reference.call");
    assert Classify(c.tag) == CallRef;
    assert NoCaptures.calls + [Reference(c.text, c.startRow + 1)] == [Reference(c.text, c.startRow + 1)];
  }

  /** A `reference.extends` capture yields one inheritance reference. */
  lemma ExtendsCapture(c: Capture)
    requires c.tag == "reference.extends"
    ensures Extract([c]) == Success(Extraction([], [], [Reference(c.text, c.startRow + 1)], []))
  {
    SingleCapture(c);
    assert !StartsWith(c.tag, "definition") by {
      assert c.tag[..10][0] != "definition"[0];
    }
    assert !StartsWith(c.tag, "reference.call") by {
      assert c.tag[..14][10] != "reference.call"[10];
    }
    assert c.tag[..17] == "reference.extends";
    assert Classify(c.tag) == ExtendsRef;
    assert NoCaptures.bases + [Reference(c.text, c.startRow + 1)] == [Reference(c.text, c.startRow + 1)];
  }

  /** A `reference.import` capture yields one import text. */
  lemma ImportCapture(c: Capture)
    requires c.tag == "reference.import"
    ensures Extract([c]) == Success(Extraction([], [], [], [c.text]))
  {
    SingleCapture(c);
    assert !StartsWith(c.tag, "definition") by {
      assert c.tag[..10][0] != "definition"[0];
    }
    assert !StartsWith(c.tag, "reference.call") by {
      assert c.tag[..14][10] != "reference.call"[10];
    }
    assert c.tag[..16] == "reference.import";
    assert Classify(c.tag) == ImportRef;
    assert NoCaptures.imports + [c.text] == [c.text];
  }

  /** A `definition` tag with no dot makes the whole analysis fail. */
  lemma MalformedCapture(c: Capture)
    requires StartsWith(c.tag, "definition") && '.' !in c.tag
    ensures Extract([c]) == Failure(MissingKind(c.tag))
  {
    SingleCapture(c);
  }

  /** A capture whose tag has none of the four prefixes, such as a bare
      `name` tag, is skipped: it adds nothing. */
  lemma UnusedCapture(c: Capture)
    requires !StartsWith(c.tag, "definition") && !StartsWith(c.tag, "reference.call")
    requires !StartsWith(c.tag, "reference.extends") && !StartsWith(c.tag, "reference.import")
    ensures Extract([c]) == Success(NoCaptures)
  {
    SingleCapture(c);
  }
}
