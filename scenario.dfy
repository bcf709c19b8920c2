/** A whole file on small concrete captures: one class holding one method
    with a single `if` that calls a function defined after the class. */
module Scenario {
  import opened Wrappers
  import opened SyntaxTree
  import opened Complexity
  import opened Captures
  import opened Attribution
  import opened Shaping

  const MethodNode := Node("method_definition", [Node("if_statement", [])])

  /** `caps` are the file's captures, in the order the query reports
      them: the class on rows 0-9, the method on rows 1-4, the call on
      row 2, the function on rows 11-12. */
  predicate IsFile(caps: seq<Capture>) {
    |caps| == 4 &&
    caps[0] == Capture(DefinitionTag("class"), Node("class_definition", []), "Repo", 0, 9) &&
    caps[1] == Capture(DefinitionTag("method"), MethodNode, "load", 1, 4) &&
    caps[2] == Capture("reference.call", Node("identifier", []), "helper", 2, 2) &&
    caps[3] == Capture(DefinitionTag("function"), Node("function_definition", []), "helper", 11, 12)
  }

  const RepoClass := Container("class", "Repo", 1, 10, 0, {}, [])
  const LoadMethod := Container("method", "load", 2, 5, 2, {}, [])
  const HelperFunction := Container("function", "helper", 12, 13, 1, {}, [])

  lemma MethodScoresTwo()
    ensures Score(MethodNode) == 2
  {
    CountedLeafAddsOne("method_definition", [], "if_statement");
    assert [] + [Node("if_statement", [])] == MethodNode.children;
    assert !Increments("method_definition");
  }

  lemma FunctionScoresOne()
    ensures Score(Node("function_definition", [])) == 1
  {
    assert !Increments("function_definition");
  }

  lemma ClassStep(c: Capture)
    requires c.tag == DefinitionTag("class") && c.text == "Repo" && c.startRow == 0 && c.endRow == 9
    ensures Extract([c]) == Success(Extraction([RepoClass], [], [], []))
  {
    DefinitionCapture(c, "class");
    var d := Container("class", c.text, c.startRow + 1, c.endRow + 1, Estimate("class", c.node), {}, []);
    assert Estimate("class", c.node) == 0;
    assert d == RepoClass;
    assert [d] == [RepoClass];
  }

  lemma MethodStep(c: Capture)
    requires c == Capture(DefinitionTag("method"), MethodNode, "load", 1, 4)
    ensures Extract([c]) == Success(Extraction([LoadMethod], [], [], []))
  {
    DefinitionCapture(c, "method");
    MethodScoresTwo();
  }

  lemma CallStep(c: Capture)
    requires c == Capture("reference.call", Node("identifier", []), "helper", 2, 2)
    ensures Extract([c]) == Success(Extraction([], [Reference("helper", 3)], [], []))
  {
    CallCapture(c);
  }

  lemma FunctionStep(c: Capture)
    requires c == Capture(DefinitionTag("function"), Node("function_definition", []), "helper", 11, 12)
    ensures Extract([c]) == Success(Extraction([HelperFunction], [], [], []))
  {
    DefinitionCapture(c, "function");
    FunctionScoresOne();
  }

  /** Four captures yield what each of them yields, joined in order. */
  lemma {:induction false} ExtractFour(caps: seq<Capture>, x1: Extraction, x2: Extraction, x3: Extraction, x4: Extraction)
    requires |caps| == 4
    requires Extract([caps[0]]) == Success(x1) && Extract([caps[1]]) == Success(x2)
    requires Extract([caps[2]]) == Success(x3) && Extract([caps[3]]) == Success(x4)
    ensures Extract(caps) == Success(Join(Join(Join(x1, x2), x3), x4))
  {
    ExtractAppend([caps[0]], [caps[1]]);
    assert [caps[0]] + [caps[1]] == caps[..2];
    ExtractAppend(caps[..2], [caps[2]]);
    assert caps[..2] + [caps[2]] == caps[..3];
    ExtractAppend(caps[..3], [caps[3]]);
    assert caps[..3] + [caps[3]] == caps;
  }

  lemma JoinFour(a: Container, b: Container, r: Reference, d: Container)
    ensures Join(Join(Join(Extraction([a], [], [], []), Extraction([b], [], [], [])),
      Extraction([], [r], [], [])), Extraction([d], [], [], [])) == Extraction([a, b, d], [r], [], [])
  {
    assert [a] + [b] + [] + [d] == [a, b, d];
    assert [] + [] + [r] + [] == [r];
  }

  /** The capture loop yields the three containers and the one call. */
  lemma ScenarioExtract(caps: seq<Capture>)
    requires IsFile(caps)
    ensures Extract(caps) ==
      Success(Extraction([RepoClass, LoadMethod, HelperFunction], [Reference("helper", 3)], [], []))
  {
    ClassStep(caps[0]);
    MethodStep(caps[1]);
    CallStep(caps[2]);
    FunctionStep(caps[3]);
    ExtractFour(caps, Extraction([RepoClass], [], [], []), Extraction([LoadMethod], [], [], []),
      Extraction([], [Reference("helper", 3)], [], []), Extraction([HelperFunction], [], [], []));
    JoinFour(RepoClass, LoadMethod, Reference("helper", 3), HelperFunction);
  }

  /** A listing of one name is that name alone. */
  lemma SingletonListing(l: seq<string>, x: string)
    requires IsListing(l, {x})
    ensures l == [x]
  {
    assert |l| == 1 && l[0] in {x};
  }

  lemma EmptyListing(l: seq<string>)
    requires IsListing(l, {})
    ensures l == []
  {
  }

  /** A class, then a method enclosing the one call's line, then a
      function that does not: the call goes to the method alone. */
  lemma AttributedThree(a: Container, b: Container, d: Container, r: Reference)
    requires a.kind == "class" && b.kind == "method" && d.kind == "function"
    requires Encloses(b, r.line) && !Encloses(d, r.line)
    requires b.calls == {}
    ensures Attributed(Extraction([a, b, d], [r], [], [])) == [a, b.(calls := {r.name}), d]
  {
    var cs := [a, b, d];
    CallTargetUnique(cs, r.line, 1);
    assert [r][..0] == [];
    var att := Attributed(Extraction(cs, [r], [], []));
    assert a.bases + [] == a.bases && b.bases + [] == b.bases && d.bases + [] == d.bases;
    assert CallsFor(cs, [r], 0) == {} && CallsFor(cs, [r], 1) == {r.name} && CallsFor(cs, [r], 2) == {};
    assert att[0] == a && att[1] == b.(calls := {r.name}) && att[2] == d;
  }

  /** One listing per container of three. */
  lemma ListingsThree(orders: seq<seq<string>>, a: Container, b: Container, d: Container)
    requires |orders| == 3
    requires IsListing(orders[0], a.calls) && IsListing(orders[1], b.calls) && IsListing(orders[2], d.calls)
    ensures Listings(orders, [a, b, d])
  {
  }

  /** Rendering three containers whose call sets are empty, one name,
      and empty. */
  lemma RenderedThree(a: Container, b: Container, d: Container, name: string, orders: seq<seq<string>>)
    requires a.calls == {} && b.calls == {name} && d.calls == {}
    requires Listings(orders, [a, b, d])
    ensures RenderAll([a, b, d], orders) == [Rendered(a, []), Rendered(b, [name]), Rendered(d, [])]
  {
    EmptyListing(orders[0]);
    SingletonListing(orders[1], name);
    EmptyListing(orders[2]);
  }

  lemma SortedThree(e1: Entry, e2: Entry, e3: Entry)
    requires TypeLike(e1.kind) && !TypeLike(e2.kind) && !TypeLike(e3.kind)
    ensures Classes([e1, e2, e3]) == [e1] && Functions([e1, e2, e3]) == [e2, e3]
  {
    assert [e1, e2, e3][..2] == [e1, e2] && [e1, e2][..1] == [e1] && [e1][..0] == [];
    assert Functions([e1]) == Functions([]) + [] == [];
    assert Classes([e1]) == [e1];
    assert Classes([e1, e2]) == [e1] && Functions([e1, e2]) == [e2];
  }

  /** The report has one class, with estimate 0 and no bases, and two
      functions: the method with estimate 2 calling `helper`, then
      `helper` itself. */
  lemma ScenarioReport(caps: seq<Capture>, orders: seq<seq<string>>)
    requires IsFile(caps)
    requires |orders| == 3 && IsListing(orders[0], {}) && IsListing(orders[1], {"helper"}) && IsListing(orders[2], {})
    ensures Extract(caps).Success? && Listings(orders, Attributed(Extract(caps).value)) &&
      ReportOf("repo.py", "python", 14, Extract(caps).value, orders) ==
      Report("repo.py", "python", 14, [],
        [Entry("class", "Repo", 1, 10, 0, [], [])],
        [Entry("method", "load", 2, 5, 2, ["helper"], []),
         Entry("function", "helper", 12, 13, 1, [], [])])
  {
    ScenarioExtract(caps);
    var call := Reference("helper", 3);
    AttributedThree(RepoClass, LoadMethod, HelperFunction, call);
    var loaded := LoadMethod.(calls := {"helper"});
    ListingsThree(orders, RepoClass, loaded, HelperFunction);
    RenderedThree(RepoClass, loaded, HelperFunction, "helper", orders);
    SortedThree(Rendered(RepoClass, []), Rendered(loaded, ["helper"]), Rendered(HelperFunction, []));
  }
}
