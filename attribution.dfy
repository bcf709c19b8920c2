/** Attributing inheritance and call references to the containers that
    enclose their lines: first class for an inheritance reference, the
    narrowest function or method for a call. */
module Attribution {
  import opened Wrappers
  import opened Captures

  /** `start_line <= line <= end_line`. */
  predicate Encloses(c: Container, line: nat) {
    c.startLine <= line <= c.endLine
  }

  /** `end_line - start_line`, which the source compares as a plain number. */
  function Span(c: Container): int {
    c.endLine - c.startLine
  }

  predicate ExtendsCandidate(c: Container, line: nat) {
    c.kind == "class" && Encloses(c, line)
  }

  predicate CallCandidate(c: Container, line: nat) {
    IsCallable(c.kind) && Encloses(c, line)
  }

  /** The container an inheritance reference on `line` goes to: the first
      class, in capture order, whose lines contain it. */
  function ExtendsTarget(cs: seq<Container>, line: nat): (r: Option<nat>)
    ensures r.Some? ==> r.value < |cs|
  {
    if cs == [] then None
    else if ExtendsCandidate(cs[0], line) then Some(0)
    else
      match ExtendsTarget(cs[1..], line)
      case None => None
      case Some(k) => Some(k + 1)
  }

  /** The container a call on `line` goes to: among the functions and
      methods whose lines contain it, one of least span, and of those the
      first in capture order. */
  function CallTarget(cs: seq<Container>, line: nat): (r: Option<nat>)
    ensures r.Some? ==> r.value < |cs|
    decreases |cs|
  {
    if cs == [] then None
    else
      var prev := CallTarget(cs[..|cs| - 1], line);
      var last := |cs| - 1;
      if CallCandidate(cs[last], line) && (prev.None? || Span(cs[last]) < Span(cs[prev.value])) then Some(last)
      else prev
  }

  /** The first-match rule: the target is `None` exactly when no class
      encloses the line, and otherwise a class enclosing it with none
      before it. */
  lemma {:induction false} ExtendsTargetFirst(cs: seq<Container>, line: nat)
    ensures var r := ExtendsTarget(cs, line);
      (r.None? <==> forall i :: 0 <= i < |cs| ==> !ExtendsCandidate(cs[i], line)) &&
      (r.Some? ==>
         ExtendsCandidate(cs[r.value], line) &&
         forall i :: 0 <= i < r.value ==> !ExtendsCandidate(cs[i], line))
  {
    if cs != [] && !ExtendsCandidate(cs[0], line) {
      ExtendsTargetFirst(cs[1..], line);
      assert forall i :: 1 <= i < |cs| ==> cs[i] == cs[1..][i - 1];
    }
  }

  /** The least-span rule: the target is `None` exactly when no function
      or method encloses the line, and otherwise an enclosing one of
      least span, strictly narrower than every enclosing one before it. */
  lemma {:induction false} CallTargetLeastSpan(cs: seq<Container>, line: nat)
    ensures var r := CallTarget(cs, line);
      (r.None? <==> forall i :: 0 <= i < |cs| ==> !CallCandidate(cs[i], line)) &&
      (r.Some? ==>
         CallCandidate(cs[r.value], line) &&
         (forall i :: 0 <= i < |cs| && CallCandidate(cs[i], line) ==> Span(cs[r.value]) <= Span(cs[i])) &&
         (forall i :: 0 <= i < r.value && CallCandidate(cs[i], line) ==> Span(cs[r.value]) < Span(cs[i])))
    decreases |cs|
  {
    if cs != [] {
      var n := |cs| - 1;
      CallTargetLeastSpan(cs[..n], line);
      assert forall i :: 0 <= i < n ==> cs[i] == cs[..n][i];
    }
  }

  /** One more container, as the call pass's inner loop sees it. */
  lemma CallTargetStep(cs: seq<Container>, c: Container, line: nat)
    ensures var prev := CallTarget(cs, line);
      CallTarget(cs + [c], line) ==
        if CallCandidate(c, line) && (prev.None? || Span(c) < Span(cs[prev.value])) then Some(|cs|) else prev
  {
    assert (cs + [c])[..|cs|] == cs;
    assert (cs + [c])[|cs|] == c;
  }

  /** The first-match rule picks one container: any index that is a class
      enclosing the line with no such class before it is the target. */
  lemma ExtendsTargetUnique(cs: seq<Container>, line: nat, k: nat)
    requires k < |cs| && ExtendsCandidate(cs[k], line)
    requires forall i :: 0 <= i < k ==> !ExtendsCandidate(cs[i], line)
    ensures ExtendsTarget(cs, line) == Some(k)
  {
    ExtendsTargetFirst(cs, line);
    var r := ExtendsTarget(cs, line);
    assert r.Some?;
  }

  /** The least-span rule picks one container: an enclosing callable of
      least span, strictly narrower than every enclosing callable before
      it, is the target. */
  lemma CallTargetUnique(cs: seq<Container>, line: nat, k: nat)
    requires k < |cs| && CallCandidate(cs[k], line)
    requires forall i :: 0 <= i < |cs| && CallCandidate(cs[i], line) ==> Span(cs[k]) <= Span(cs[i])
    requires forall i :: 0 <= i < k && CallCandidate(cs[i], line) ==> Span(cs[k]) < Span(cs[i])
    ensures CallTarget(cs, line) == Some(k)
  {
    CallTargetLeastSpan(cs, line);
    var r := CallTarget(cs, line);
    assert r.Some?;
  }

  /** Two container lists with the same kinds and lines, position by
      position: attribution only ever looks at those. */
  predicate SameShape(xs: seq<Container>, ys: seq<Container>) {
    |xs| == |ys| &&
    forall j :: 0 <= j < |xs| ==>
      xs[j].kind == ys[j].kind && xs[j].startLine == ys[j].startLine && xs[j].endLine == ys[j].endLine
  }

  /** Targets do not depend on what has already been attributed. */
  lemma {:induction false} ExtendsTargetShape(xs: seq<Container>, ys: seq<Container>, line: nat)
    requires SameShape(xs, ys)
    ensures ExtendsTarget(xs, line) == ExtendsTarget(ys, line)
  {
    if xs != [] {
      assert SameShape(xs[1..], ys[1..]) by {
        forall j | 0 <= j < |xs[1..]|
          ensures xs[1..][j].kind == ys[1..][j].kind && xs[1..][j].startLine == ys[1..][j].startLine
            && xs[1..][j].endLine == ys[1..][j].endLine
        {
          assert xs[1..][j] == xs[j + 1] && ys[1..][j] == ys[j + 1];
        }
      }
      ExtendsTargetShape(xs[1..], ys[1..], line);
    }
  }

  lemma {:induction false} CallTargetShape(xs: seq<Container>, ys: seq<Container>, line: nat)
    requires SameShape(xs, ys)
    ensures CallTarget(xs, line) == CallTarget(ys, line)
    decreases |xs|
  {
    if xs != [] {
      var n := |xs| - 1;
      assert SameShape(xs[..n], ys[..n]) by {
        forall j | 0 <= j < n
          ensures xs[..n][j].kind == ys[..n][j].kind && xs[..n][j].startLine == ys[..n][j].startLine
            && xs[..n][j].endLine == ys[..n][j].endLine
        {
          assert xs[..n][j] == xs[j] && ys[..n][j] == ys[j];
        }
      }
      CallTargetShape(xs[..n], ys[..n], line);
    }
  }

  /** Inheritance reference `r` goes to container `j`. */
  predicate ExtendsTo(cs: seq<Container>, r: Reference, j: nat) {
    ExtendsTarget(cs, r.line) == Some(j)
  }

  /** Call `r` goes to container `j`. */
  predicate CallsTo(cs: seq<Container>, r: Reference, j: nat) {
    CallTarget(cs, r.line) == Some(j)
  }

  /** The names the inheritance references in `refs` add to container `j`,
      in reference order. */
  function ExtendsFor(cs: seq<Container>, refs: seq<Reference>, j: nat): seq<string>
    decreases |refs|
  {
    if refs == [] then []
    else
      var r := refs[|refs| - 1];
      ExtendsFor(cs, refs[..|refs| - 1], j) + (if ExtendsTo(cs, r, j) then [r.name] else [])
  }

  /** The names the calls in `refs` add to container `j`. */
  function CallsFor(cs: seq<Container>, refs: seq<Reference>, j: nat): set<string>
    decreases |refs|
  {
    if refs == [] then {}
    else
      var r := refs[|refs| - 1];
      CallsFor(cs, refs[..|refs| - 1], j) + (if CallsTo(cs, r, j) then {r.name} else {})
  }

  /** A name appears among the inheritance names of container `j` exactly
      when some inheritance reference with that name has `j` as target. */
  lemma {:induction false} ExtendsForMembers(cs: seq<Container>, refs: seq<Reference>, j: nat, name: string)
    ensures name in ExtendsFor(cs, refs, j) <==>
      exists i :: 0 <= i < |refs| && refs[i].name == name && ExtendsTo(cs, refs[i], j)
  {
    if name in ExtendsFor(cs, refs, j) {
      ExtendsForSound(cs, refs, j, name);
    }
    if exists i :: 0 <= i < |refs| && refs[i].name == name && ExtendsTo(cs, refs[i], j) {
      var i :| 0 <= i < |refs| && refs[i].name == name && ExtendsTo(cs, refs[i], j);
      ExtendsForComplete(cs, refs, j, i);
    }
  }

  lemma {:induction false} ExtendsForSound(cs: seq<Container>, refs: seq<Reference>, j: nat, name: string)
    requires name in ExtendsFor(cs, refs, j)
    ensures exists i :: 0 <= i < |refs| && refs[i].name == name && ExtendsTo(cs, refs[i], j)
    decreases |refs|
  {
    var n := |refs| - 1;
    var pre := refs[..n];
    var tail := if ExtendsTo(cs, refs[n], j) then [refs[n].name] else [];
    assert ExtendsFor(cs, refs, j) == ExtendsFor(cs, pre, j) + tail;
    if name in ExtendsFor(cs, pre, j) {
      ExtendsForSound(cs, pre, j, name);
      var i :| 0 <= i < |pre| && pre[i].name == name && ExtendsTo(cs, pre[i], j);
      assert refs[i] == pre[i];
    } else {
      assert name in tail;
      assert refs[n].name == name && ExtendsTo(cs, refs[n], j);
    }
  }

  lemma {:induction false} ExtendsForComplete(cs: seq<Container>, refs: seq<Reference>, j: nat, i: nat)
    requires i < |refs| && ExtendsTo(cs, refs[i], j)
    ensures refs[i].name in ExtendsFor(cs, refs, j)
    decreases |refs|
  {
    var n := |refs| - 1;
    var pre := refs[..n];
    var tail := if ExtendsTo(cs, refs[n], j) then [refs[n].name] else [];
    assert ExtendsFor(cs, refs, j) == ExtendsFor(cs, pre, j) + tail;
    if i < n {
      assert pre[i] == refs[i];
      ExtendsForComplete(cs, pre, j, i);
    } else {
      assert tail == [refs[n].name];
    }
  }

  /** A name is among the calls of container `j` exactly when some call
      with that name has `j` as target. */
  lemma {:induction false} CallsForMembers(cs: seq<Container>, refs: seq<Reference>, j: nat, name: string)
    ensures name in CallsFor(cs, refs, j) <==>
      exists i :: 0 <= i < |refs| && refs[i].name == name && CallsTo(cs, refs[i], j)
  {
    if name in CallsFor(cs, refs, j) {
      CallsForSound(cs, refs, j, name);
    }
    if exists i :: 0 <= i < |refs| && refs[i].name == name && CallsTo(cs, refs[i], j) {
      var i :| 0 <= i < |refs| && refs[i].name == name && CallsTo(cs, refs[i], j);
      CallsForComplete(cs, refs, j, i);
    }
  }

  lemma {:induction false} CallsForSound(cs: seq<Container>, refs: seq<Reference>, j: nat, name: string)
    requires name in CallsFor(cs, refs, j)
    ensures exists i :: 0 <= i < |refs| && refs[i].name == name && CallsTo(cs, refs[i], j)
    decreases |refs|
  {
    var n := |refs| - 1;
    var pre := refs[..n];
    var tail := if CallsTo(cs, refs[n], j) then {refs[n].name} else {};
    assert CallsFor(cs, refs, j) == CallsFor(cs, pre, j) + tail;
    if name in CallsFor(cs, pre, j) {
      CallsForSound(cs, pre, j, name);
      var i :| 0 <= i < |pre| && pre[i].name == name && CallsTo(cs, pre[i], j);
      assert refs[i] == pre[i];
    } else {
      assert name in tail;
      assert refs[n].name == name && CallsTo(cs, refs[n], j);
    }
  }

  lemma {:induction false} CallsForComplete(cs: seq<Container>, refs: seq<Reference>, j: nat, i: nat)
    requires i < |refs| && CallsTo(cs, refs[i], j)
    ensures refs[i].name in CallsFor(cs, refs, j)
    decreases |refs|
  {
    var n := |refs| - 1;
    var pre := refs[..n];
    var tail := if CallsTo(cs, refs[n], j) then {refs[n].name} else {};
    assert CallsFor(cs, refs, j) == CallsFor(cs, pre, j) + tail;
    if i < n {
      assert pre[i] == refs[i];
      CallsForComplete(cs, pre, j, i);
    } else {
      assert tail == {refs[n].name};
    }
  }

  /** Only class containers receive inheritance names. */
  lemma {:induction false} OnlyClassesExtend(cs: seq<Container>, refs: seq<Reference>, j: nat)
    requires j < |cs| && cs[j].kind != "class"
    ensures ExtendsFor(cs, refs, j) == []
    decreases |refs|
  {
    if refs != [] {
      OnlyClassesExtend(cs, refs[..|refs| - 1], j);
      ExtendsTargetFirst(cs, refs[|refs| - 1].line);
    }
  }

  /** Only functions and methods receive calls. */
  lemma {:induction false} OnlyCallablesCall(cs: seq<Container>, refs: seq<Reference>, j: nat)
    requires j < |cs| && !IsCallable(cs[j].kind)
    ensures CallsFor(cs, refs, j) == {}
    decreases |refs|
  {
    if refs != [] {
      OnlyCallablesCall(cs, refs[..|refs| - 1], j);
      CallTargetLeastSpan(cs, refs[|refs| - 1].line);
    }
  }

  /** The number of inheritance names the containers `cs[..n]` receive. */
  function ExtendsReceived(cs: seq<Container>, refs: seq<Reference>, n: nat): nat
    decreases n
  {
    if n == 0 then 0 else ExtendsReceived(cs, refs, n - 1) + |ExtendsFor(cs, refs, n - 1)|
  }

  /** The number of inheritance references some class encloses. */
  function ExtendsMatched(cs: seq<Container>, refs: seq<Reference>): nat
    decreases |refs|
  {
    if refs == [] then 0
    else ExtendsMatched(cs, refs[..|refs| - 1]) + (if ExtendsTarget(cs, refs[|refs| - 1].line).Some? then 1 else 0)
  }

  /** One more reference adds one name to its target, if it has one, and
      nothing elsewhere. */
  lemma {:induction false} ExtendsReceivedSnoc(cs: seq<Container>, refs: seq<Reference>, n: nat)
    requires refs != [] && n <= |cs|
    ensures ExtendsReceived(cs, refs, n) == ExtendsReceived(cs, refs[..|refs| - 1], n) +
      (match ExtendsTarget(cs, refs[|refs| - 1].line) case Some(t) => if t < n then 1 else 0 case None => 0)
    decreases n
  {
    if n > 0 {
      ExtendsReceivedSnoc(cs, refs, n - 1);
      var r := refs[|refs| - 1];
      var tail := if ExtendsTo(cs, r, n - 1) then [r.name] else [];
      assert ExtendsFor(cs, refs, n - 1) == ExtendsFor(cs, refs[..|refs| - 1], n - 1) + tail;
    }
  }

  /** Every inheritance reference lands in exactly one container or is
      dropped: the containers receive as many names as there are
      references some class encloses. */
  lemma {:induction false} ExtendsConserved(cs: seq<Container>, refs: seq<Reference>)
    ensures ExtendsReceived(cs, refs, |cs|) == ExtendsMatched(cs, refs)
    decreases |refs|
  {
    if refs == [] {
      ExtendsNone(cs, refs, |cs|);
    } else {
      ExtendsConserved(cs, refs[..|refs| - 1]);
      ExtendsReceivedSnoc(cs, refs, |cs|);
    }
  }

  lemma {:induction false} ExtendsNone(cs: seq<Container>, refs: seq<Reference>, n: nat)
    requires refs == []
    ensures ExtendsReceived(cs, refs, n) == 0
    decreases n
  {
    if n > 0 {
      ExtendsNone(cs, refs, n - 1);
    }
  }

  /** One more reference, seen from container `j`. */
  lemma ExtendsForStep(cs: seq<Container>, refs: seq<Reference>, r: nat, j: nat)
    requires r < |refs|
    ensures ExtendsFor(cs, refs[..r + 1], j) == ExtendsFor(cs, refs[..r], j) +
      (if ExtendsTo(cs, refs[r], j) then [refs[r].name] else [])
  {
    assert refs[..r + 1][..r] == refs[..r];
  }

  lemma CallsForStep(cs: seq<Container>, refs: seq<Reference>, r: nat, j: nat)
    requires r < |refs|
    ensures CallsFor(cs, refs[..r + 1], j) == CallsFor(cs, refs[..r], j) +
      (if CallsTo(cs, refs[r], j) then {refs[r].name} else {})
  {
    assert refs[..r + 1][..r] == refs[..r];
  }

  /** `cur` is `orig` with the names of `refs` appended to the bases of
      their targets. */
  predicate ExtendsApplied(orig: seq<Container>, cur: seq<Container>, refs: seq<Reference>) {
    |cur| == |orig| &&
    forall j :: 0 <= j < |cur| ==> cur[j] == orig[j].(bases := orig[j].bases + ExtendsFor(orig, refs, j))
  }

  /** Appending the next reference's name to its target keeps `ExtendsApplied`. */
  lemma ExtendsApply(orig: seq<Container>, cur: seq<Container>, refs: seq<Reference>, r: nat)
    requires r < |refs| && ExtendsApplied(orig, cur, refs[..r])
    ensures SameShape(cur, orig)
    ensures var t := ExtendsTarget(orig, refs[r].line);
      ExtendsApplied(orig,
        if t.Some? then cur[t.value := cur[t.value].(bases := cur[t.value].bases + [refs[r].name])] else cur,
        refs[..r + 1])
  {
    var t := ExtendsTarget(orig, refs[r].line);
    var next := if t.Some? then cur[t.value := cur[t.value].(bases := cur[t.value].bases + [refs[r].name])] else cur;
    forall j | 0 <= j < |next|
      ensures next[j] == orig[j].(bases := orig[j].bases + ExtendsFor(orig, refs[..r + 1], j))
    {
      ExtendsForStep(orig, refs, r, j);
    }
  }

  /** The inheritance loop of `analyze_file`: one reference at a time,
      append its name to the first class enclosing its line. */
  method AttributeExtends(a: array<Container>, refs: seq<Reference>)
    modifies a
    ensures ExtendsApplied(old(a[..]), a[..], refs)
  {
    ghost var orig := a[..];
    assert refs[..0] == [];
    for r := 0 to |refs|
      invariant ExtendsApplied(orig, a[..], refs[..r])
    {
      ExtendsApply(orig, a[..], refs, r);
      ExtendsTargetShape(a[..], orig, refs[r].line);
      var target := FindExtendsTarget(a, refs[r].line);
      if target.Some? {
        var t := target.value;
        a[t] := a[t].(bases := a[t].bases + [refs[r].name]);
      }
    }
    assert refs[..|refs|] == refs;
  }

  /** The inner loop of the inheritance pass: scan in order, stop at the
      first class enclosing `line`. */
  method FindExtendsTarget(a: array<Container>, line: nat) returns (r: Option<nat>)
    ensures r == ExtendsTarget(a[..], line)
  {
    r := None;
    var i := 0;
    while i < a.Length
      invariant 0 <= i <= a.Length
      invariant forall k :: 0 <= k < i ==> !ExtendsCandidate(a[k], line)
    {
      if a[i].kind == "class" {
        if a[i].startLine <= line <= a[i].endLine {
          r := Some(i);
          ExtendsTargetUnique(a[..], line, i);
          return;
        }
      }
      i := i + 1;
    }
    ExtendsTargetFirst(a[..], line);
  }

  /** The inner loop of the call pass: scan every container, keep the
      enclosing function or method of strictly least span so far. */
  method FindCallTarget(a: array<Container>, line: nat) returns (r: Option<nat>)
    ensures r == CallTarget(a[..], line)
  {
    r := None;
    var minLen: Option<int> := None;
    for i := 0 to a.Length
      invariant r == CallTarget(a[..i], line)
      invariant minLen == (match r case None => None case Some(k) => Some(Span(a[k])))
    {
      assert a[..i + 1] == a[..i] + [a[i]];
      CallTargetStep(a[..i], a[i], line);
      if a[i].kind == "function" || a[i].kind == "method" {
        if a[i].startLine <= line <= a[i].endLine {
          var length := a[i].endLine - a[i].startLine;
          if minLen.None? || length < minLen.value {
            minLen := Some(length);
            r := Some(i);
          }
        }
      }
    }
    assert a[..a.Length] == a[..];
  }

  /** `cur` is `orig` with the names of `refs` added to the calls of their
      targets. */
  predicate CallsApplied(orig: seq<Container>, cur: seq<Container>, refs: seq<Reference>) {
    |cur| == |orig| &&
    forall j :: 0 <= j < |cur| ==> cur[j] == orig[j].(calls := orig[j].calls + CallsFor(orig, refs, j))
  }

  /** Adding the next call's name to its target keeps `CallsApplied`. */
  lemma CallsApply(orig: seq<Container>, cur: seq<Container>, refs: seq<Reference>, r: nat)
    requires r < |refs| && CallsApplied(orig, cur, refs[..r])
    ensures SameShape(cur, orig)
    ensures var t := CallTarget(orig, refs[r].line);
      CallsApplied(orig,
        if t.Some? then cur[t.value := cur[t.value].(calls := cur[t.value].calls + {refs[r].name})] else cur,
        refs[..r + 1])
  {
    var t := CallTarget(orig, refs[r].line);
    var next := if t.Some? then cur[t.value := cur[t.value].(calls := cur[t.value].calls + {refs[r].name})] else cur;
    forall j | 0 <= j < |next|
      ensures next[j] == orig[j].(calls := orig[j].calls + CallsFor(orig, refs[..r + 1], j))
    {
      CallsForStep(orig, refs, r, j);
    }
  }

  /** The call loop of `analyze_file`: one call at a time, add its name to
      the narrowest enclosing function or method. */
  method AttributeCalls(a: array<Container>, refs: seq<Reference>)
    modifies a
    ensures CallsApplied(old(a[..]), a[..], refs)
  {
    ghost var orig := a[..];
    assert refs[..0] == [];
    for r := 0 to |refs|
      invariant CallsApplied(orig, a[..], refs[..r])
    {
      CallsApply(orig, a[..], refs, r);
      CallTargetShape(a[..], orig, refs[r].line);
      var target := FindCallTarget(a, refs[r].line);
      if target.Some? {
        var t := target.value;
        a[t] := a[t].(calls := a[t].calls + {refs[r].name});
      }
    }
    assert refs[..|refs|] == refs;
  }

  /** What the references add to each container does not depend on what
      has already been attributed. */
  lemma {:induction false} ExtendsForShape(xs: seq<Container>, ys: seq<Container>, refs: seq<Reference>, j: nat)
    requires SameShape(xs, ys)
    ensures ExtendsFor(xs, refs, j) == ExtendsFor(ys, refs, j)
    decreases |refs|
  {
    if refs != [] {
      ExtendsForShape(xs, ys, refs[..|refs| - 1], j);
      ExtendsTargetShape(xs, ys, refs[|refs| - 1].line);
    }
  }

  lemma {:induction false} CallsForShape(xs: seq<Container>, ys: seq<Container>, refs: seq<Reference>, j: nat)
    requires SameShape(xs, ys)
    ensures CallsFor(xs, refs, j) == CallsFor(ys, refs, j)
    decreases |refs|
  {
    if refs != [] {
      CallsForShape(xs, ys, refs[..|refs| - 1], j);
      CallTargetShape(xs, ys, refs[|refs| - 1].line);
    }
  }

  /** A call on a line no function or method encloses is dropped: no
      container gains anything from it. */
  lemma DroppedCall(cs: seq<Container>, refs: seq<Reference>, r: Reference, j: nat)
    requires forall i :: 0 <= i < |cs| ==> !CallCandidate(cs[i], r.line)
    ensures CallsFor(cs, refs + [r], j) == CallsFor(cs, refs, j)
  {
    CallTargetLeastSpan(cs, r.line);
    assert (refs + [r])[..|refs|] == refs;
  }

  /** An inheritance reference on a line no class encloses is dropped. */
  lemma DroppedExtends(cs: seq<Container>, refs: seq<Reference>, r: Reference, j: nat)
    requires forall i :: 0 <= i < |cs| ==> !ExtendsCandidate(cs[i], r.line)
    ensures ExtendsFor(cs, refs + [r], j) == ExtendsFor(cs, refs, j)
  {
    ExtendsTargetFirst(cs, r.line);
    assert (refs + [r])[..|refs|] == refs;
  }

  /** A container whose start line lies after its end line encloses no
      line, so neither pass gives it anything. */
  lemma InvertedNeverReceives(cs: seq<Container>, calls: seq<Reference>, bases: seq<Reference>, j: nat)
    requires j < |cs| && cs[j].startLine > cs[j].endLine
    ensures CallsFor(cs, calls, j) == {} && ExtendsFor(cs, bases, j) == []
  {
    forall name | name in CallsFor(cs, calls, j)
      ensures false
    {
      CallsForSound(cs, calls, j, name);
      var i :| 0 <= i < |calls| && calls[i].name == name && CallsTo(cs, calls[i], j);
      CallTargetLeastSpan(cs, calls[i].line);
    }
    if ExtendsFor(cs, bases, j) != [] {
      var name := ExtendsFor(cs, bases, j)[0];
      ExtendsForSound(cs, bases, j, name);
      var i :| 0 <= i < |bases| && bases[i].name == name && ExtendsTo(cs, bases[i], j);
      ExtendsTargetFirst(cs, bases[i].line);
    }
  }

  /** Nested classes `[1,10]` and `[3,8]`, outer one captured first: an
      inheritance reference on line 4 goes to the outer class, by capture
      order and not by nesting. */
  lemma NestedClassesFirstMatch(outer: Container, inner: Container)
    requires outer.kind == "class" && outer.startLine == 1 && outer.endLine == 10
    requires inner.kind == "class" && inner.startLine == 3 && inner.endLine == 8
    ensures ExtendsTarget([outer, inner], 4) == Some(0)
    ensures ExtendsTarget([inner, outer], 4) == Some(0)
  {
    ExtendsTargetUnique([outer, inner], 4, 0);
    ExtendsTargetUnique([inner, outer], 4, 0);
  }

  /** An outer function `[1,20]` and a function `[5,10]` nested in it: a
      call on line 7 goes to the inner one, a call on line 15 to the outer
      one, whichever was captured first. */
  lemma NestedFunctionsLeastSpan(outer: Container, inner: Container)
    requires IsCallable(outer.kind) && outer.startLine == 1 && outer.endLine == 20
    requires IsCallable(inner.kind) && inner.startLine == 5 && inner.endLine == 10
    ensures CallTarget([outer, inner], 7) == Some(1) && CallTarget([outer, inner], 15) == Some(0)
    ensures CallTarget([inner, outer], 7) == Some(0) && CallTarget([inner, outer], 15) == Some(1)
  {
    CallTargetUnique([outer, inner], 7, 1);
    CallTargetUnique([outer, inner], 15, 0);
    CallTargetUnique([inner, outer], 7, 0);
    CallTargetUnique([inner, outer], 15, 1);
  }

  /** Two enclosing functions of equal span: the one captured first wins. */
  lemma EqualSpansFirstWins(first: Container, second: Container, line: nat)
    requires CallCandidate(first, line) && CallCandidate(second, line) && Span(first) == Span(second)
    ensures CallTarget([first, second], line) == Some(0)
  {
    CallTargetUnique([first, second], line, 0);
  }

  /** The containers after both passes, as a function of what the capture
      loop collected. */
  function Attributed(x: Extraction): (r: seq<Container>)
    ensures |r| == |x.containers|
  {
    var cs := x.containers;
    seq(|cs|, j requires 0 <= j < |cs| =>
      cs[j].(bases := cs[j].bases + ExtendsFor(cs, x.bases, j),
             calls := cs[j].calls + CallsFor(cs, x.calls, j)))
  }
}
