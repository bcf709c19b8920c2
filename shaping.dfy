/** Formatting the attributed containers: capping each call list, sorting
    containers into classes and functions, capping the imports, and the
    whole of `analyze_file` from captures on. */
module Shaping {
  import opened Wrappers
  import opened Captures
  import opened Attribution

  /** At most this many calls are listed per container. */
  const MaxCalls: nat := 50
  /** At most this many imports are listed per file. */
  const MaxImports: nat := 100
  /** What stands in for the calls beyond `MaxCalls`. */
  const Truncated: string := "...truncated..."

  /** A container as it is written out: its calls are now a list. */
  datatype Entry = Entry(
    kind: string, name: string, startLine: nat, endLine: nat,
    complexity: nat, calls: seq<string>, bases: seq<string>)

  /** What `analyze_file` reports for one file. The file name, language
      and line count are passed through. */
  datatype Report = Report(
    file: string, language: string, loc: nat, imports: seq<string>,
    classes: seq<Entry>, functions: seq<Entry>)

  /** `l` lists the members of `s`, each once, in some order. */
  ghost predicate IsListing(l: seq<string>, s: set<string>) {
    |l| == |s| &&
    (forall x :: x in l <==> x in s) &&
    (forall i, j :: 0 <= i < j < |l| ==> l[i] != l[j])
  }

  /** `list(s)`: the members of a set in the set's own iteration order,
      which this model leaves open. */
  method ListOf(s: set<string>) returns (l: seq<string>)
    ensures IsListing(l, s)
  {
    l := [];
    var rest := s;
    while rest != {}
      invariant rest <= s && |l| + |rest| == |s|
      invariant forall x :: x in l <==> x in s && x !in rest
      invariant forall i, j :: 0 <= i < j < |l| ==> l[i] != l[j]
      decreases |rest|
    {
      var x :| x in rest;
      l := l + [x];
      rest := rest - {x};
    }
  }

  /** The first `MaxCalls` calls, and `Truncated` after them when there
      were more. */
  function Capped(calls: seq<string>): (r: seq<string>)
    ensures |calls| <= MaxCalls ==> r == calls
    ensures |calls| > MaxCalls ==> |r| == MaxCalls + 1 && r[..MaxCalls] == calls[..MaxCalls] && r[MaxCalls] == Truncated
  {
    if |calls| > MaxCalls then calls[..MaxCalls] + [Truncated] else calls
  }

  /** Every listed call is a real call or the truncation marker, and the
      list is never longer than `MaxCalls + 1`. */
  lemma CappedBounds(calls: seq<string>)
    ensures |Capped(calls)| <= MaxCalls + 1
    ensures forall x :: x in Capped(calls) ==> x in calls || x == Truncated
    ensures Truncated !in calls ==> (Truncated in Capped(calls) <==> |calls| > MaxCalls)
  {
    if |calls| > MaxCalls {
      assert Capped(calls)[MaxCalls] == Truncated;
    }
  }

  /** Sixty distinct call names give 50 names and the marker. */
  lemma SixtyCallsGiveFiftyOne(s: set<string>, l: seq<string>)
    requires |s| == 60 && IsListing(l, s)
    ensures |Capped(l)| == 51 && Capped(l)[50] == Truncated
    ensures forall i :: 0 <= i < 50 ==> Capped(l)[i] in s
  {
    forall i | 0 <= i < 50
      ensures Capped(l)[i] in s
    {
      assert Capped(l)[i] == Capped(l)[..MaxCalls][i] == l[i];
    }
  }

  function Rendered(c: Container, order: seq<string>): Entry {
    Entry(c.kind, c.name, c.startLine, c.endLine, c.complexity, Capped(order), c.bases)
  }

  /** One listing of the calls per container. */
  ghost predicate Listings(orders: seq<seq<string>>, cs: seq<Container>) {
    |orders| == |cs| && forall j :: 0 <= j < |cs| ==> IsListing(orders[j], cs[j].calls)
  }

  function RenderAll(cs: seq<Container>, orders: seq<seq<string>>): (r: seq<Entry>)
    requires |orders| == |cs|
    ensures |r| == |cs|
  {
    seq(|cs|, j requires 0 <= j < |cs| => Rendered(cs[j], orders[j]))
  }

  /** The kinds written out as classes; every other kind is a function. */
  predicate TypeLike(kind: string) {
    kind == "class" || kind == "struct" || kind == "interface"
  }

  function Classes(es: seq<Entry>): seq<Entry>
    decreases |es|
  {
    if es == [] then []
    else Classes(es[..|es| - 1]) + (if TypeLike(es[|es| - 1].kind) then [es[|es| - 1]] else [])
  }

  function Functions(es: seq<Entry>): seq<Entry>
    decreases |es|
  {
    if es == [] then []
    else Functions(es[..|es| - 1]) + (if TypeLike(es[|es| - 1].kind) then [] else [es[|es| - 1]])
  }

  /** Every entry lands in exactly one of the two lists: as a multiset,
      classes and functions together are all the entries. */
  lemma ClassesFunctionsPartition(es: seq<Entry>)
    ensures multiset(Classes(es)) + multiset(Functions(es)) == multiset(es)
    ensures |Classes(es)| + |Functions(es)| == |es|
  {
    SortedMultiset(es);
    assert |multiset(Classes(es)) + multiset(Functions(es))| == |Classes(es)| + |Functions(es)|;
  }

  lemma {:induction false} SortedMultiset(es: seq<Entry>)
    ensures multiset(Classes(es)) + multiset(Functions(es)) == multiset(es)
    decreases |es|
  {
    if es != [] {
      var n := |es| - 1;
      var pre, e := es[..n], es[n];
      SortedMultiset(pre);
      assert es == pre + [e];
      SortOne(pre, e);
      if TypeLike(e.kind) {
        assert multiset(Classes(es)) == multiset(Classes(pre)) + multiset{e};
        assert multiset(Functions(es)) == multiset(Functions(pre));
      } else {
        assert multiset(Classes(es)) == multiset(Classes(pre));
        assert multiset(Functions(es)) == multiset(Functions(pre)) + multiset{e};
      }
    }
  }

  /** One more entry goes to exactly one of the two lists. */
  lemma SortOne(es: seq<Entry>, e: Entry)
    ensures Classes(es + [e]) == Classes(es) + (if TypeLike(e.kind) then [e] else [])
    ensures Functions(es + [e]) == Functions(es) + (if TypeLike(e.kind) then [] else [e])
    ensures multiset(es + [e]) == multiset(es) + multiset{e}
  {
    assert (es + [e])[..|es|] == es;
  }

  /** Classes are exactly the class, struct and interface entries. */
  lemma {:induction false} ClassesMembers(es: seq<Entry>, e: Entry)
    ensures e in Classes(es) <==> e in es && TypeLike(e.kind)
    ensures e in Functions(es) <==> e in es && !TypeLike(e.kind)
    decreases |es|
  {
    if es != [] {
      var n := |es| - 1;
      ClassesMembers(es[..n], e);
      assert es == es[..n] + [es[n]];
    }
  }

  /** Both lists keep the containers' capture order. */
  lemma {:induction false} ClassesAppend(xs: seq<Entry>, ys: seq<Entry>)
    ensures Classes(xs + ys) == Classes(xs) + Classes(ys)
    ensures Functions(xs + ys) == Functions(xs) + Functions(ys)
    decreases |ys|
  {
    if ys == [] {
      assert xs + ys == xs;
    } else {
      var n := |ys| - 1;
      assert (xs + ys)[..|xs + ys| - 1] == xs + ys[..n];
      ClassesAppend(xs, ys[..n]);
    }
  }

  /** `imports[:100]`. */
  function CappedImports(imports: seq<string>): (r: seq<string>)
    ensures |r| == if |imports| <= MaxImports then |imports| else MaxImports
    ensures r == imports[..|r|]
  {
    if |imports| <= MaxImports then imports else imports[..MaxImports]
  }

  /** The formatting loop of `analyze_file`. */
  method Format(a: array<Container>) returns (classes: seq<Entry>, functions: seq<Entry>, orders: seq<seq<string>>)
    ensures Listings(orders, a[..])
    ensures classes == Classes(RenderAll(a[..], orders))
    ensures functions == Functions(RenderAll(a[..], orders))
  {
    classes := [];
    functions := [];
    orders := [];
    for i := 0 to a.Length
      invariant Listings(orders, a[..i])
      invariant classes == Classes(RenderAll(a[..i], orders))
      invariant functions == Functions(RenderAll(a[..i], orders))
    {
      var cont := a[i];
      var callList := ListOf(cont.calls);
      var order := callList;
      if |callList| > MaxCalls {
        callList := callList[..MaxCalls] + [Truncated];
      }
      var entry := Entry(cont.kind, cont.name, cont.startLine, cont.endLine, cont.complexity, callList, cont.bases);
      assert entry == Rendered(a[i], order);
      RenderAllSnoc(a[..i], orders, a[i], order);
      assert a[..i + 1] == a[..i] + [a[i]];
      if cont.kind == "class" || cont.kind == "struct" || cont.kind == "interface" {
        classes := classes + [entry];
      } else {
        functions := functions + [entry];
      }
      orders := orders + [order];
    }
    assert a[..a.Length] == a[..];
  }

  lemma RenderAllSnoc(cs: seq<Container>, orders: seq<seq<string>>, c: Container, order: seq<string>)
    requires |orders| == |cs|
    ensures RenderAll(cs + [c], orders + [order]) == RenderAll(cs, orders) + [Rendered(c, order)]
    ensures (RenderAll(cs, orders) + [Rendered(c, order)])[..|cs|] == RenderAll(cs, orders)
  {
    assert RenderAll(cs + [c], orders + [order])[|cs|] == Rendered(c, order);
  }

  /** The report for what the capture loop collected, given how each
      container's call set is listed. */
  function ReportOf(file: string, language: string, loc: nat, x: Extraction, orders: seq<seq<string>>): Report
    requires |orders| == |x.containers|
  {
    var es := RenderAll(Attributed(x), orders);
    Report(file, language, loc, CappedImports(x.imports), Classes(es), Functions(es))
  }

  /** After both attribution passes the containers are `Attributed(x)`. */
  lemma BothPasses(x: Extraction, mid: seq<Container>, after: seq<Container>)
    requires ExtendsApplied(x.containers, mid, x.bases)
    requires CallsApplied(mid, after, x.calls)
    ensures after == Attributed(x)
  {
    var cs := x.containers;
    assert SameShape(mid, cs);
    forall j | 0 <= j < |cs|
      ensures after[j] == Attributed(x)[j]
    {
      CallsForShape(mid, cs, x.calls, j);
    }
  }

  /** `analyze_file` from the captures on: collected, attributed and
      formatted; a definition tag without a kind fails the whole file. */
  method Analyze(file: string, language: string, loc: nat, captures: seq<Capture>)
    returns (r: Result<Report, CaptureError>, orders: seq<seq<string>>)
    ensures Extract(captures).Failure? ==> r == Failure(Extract(captures).error)
    ensures Extract(captures).Success? ==>
      Listings(orders, Attributed(Extract(captures).value)) &&
      r == Success(ReportOf(file, language, loc, Extract(captures).value, orders))
  {
    var collected := Collect(captures);
    if collected.Failure? {
      orders := [];
      r := Failure(collected.error);
      return;
    }
    var x := collected.value;
    var cs := x.containers;
    var a := new Container[|cs|](j requires 0 <= j < |cs| => cs[j]);
    assert a[..] == cs;
    AttributeExtends(a, x.bases);
    ghost var mid := a[..];
    AttributeCalls(a, x.calls);
    BothPasses(x, mid, a[..]);
    var classes, functions;
    classes, functions, orders := Format(a);
    r := Success(Report(file, language, loc, CappedImports(x.imports), classes, functions));
  }
}
