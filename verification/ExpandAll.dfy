/**
 Expanding target patterns against packages that arrive late: a pass runs on what is known, notes
 what it lacked, and runs again once that has been loaded.
*/
module ExpandAll {
  import opened Text

  /** A package's place. */
  datatype At = At(repo: string, package: string)

  datatype Label = Label(at: At, name: string)

  datatype Target = NativeRule(ruleClass: string) | OtherTarget

  datatype Package = Package(targets: map<string, Target>)

  type Reply = Result<Package, string>

  type Source = At -> Reply

  /** What stands in for a package that is not loaded yet. */
  const EMPTY: Reply := Ok(Package(map[]))

  /** The next thing the resolution of a pattern does: ask for a package, or finish. */
  datatype Action = Ask(at: At) | Finish(found: Result<seq<Label>, string>)

  /**
   Resolving a pattern: what to do next is a function of the replies so far, and after `steps` replies
   it has finished.
  */
  datatype Pattern = Pattern(next: seq<Reply> -> Action, steps: nat)

  ghost predicate Finishes(p: Pattern) {
    forall replies | p.steps <= |replies| :: p.next(replies).Finish?
  }

  ghost predicate AllFinish(patterns: seq<Pattern>) {
    forall i | 0 <= i < |patterns| :: Finishes(patterns[i])
  }

  // ---------- What a pass computes, and what it asks for ----------

  /** What a pattern names, and the packages asked for on the way. */
  ghost function Query(p: Pattern, source: Source, replies: seq<Reply>): (Result<seq<Label>, string>, set<At>)
    requires Finishes(p)
    decreases p.steps - |replies|
  {
    match p.next(replies)
    case Finish(found) => (found, {})
    case Ask(at) =>
      if p.steps <= |replies| then (Err(""), {})
      else
        var (found, asked) := Query(p, source, replies + [source(at)]);
        (found, {at} + asked)
  }

  predicate IsRule(source: Source, l: Label, ruleClass: string) {
    && source(l.at).Ok? && l.name in source(l.at).value.targets
    && source(l.at).value.targets[l.name] == NativeRule(ruleClass)
  }

  /** `labels`, then those of `found` that are rules of the class and not there yet. */
  function Collect(found: seq<Label>, source: Source, ruleClass: string, labels: seq<Label>): seq<Label>
    decreases |found|
  {
    if found == [] then labels
    else Collect(found[1..], source, ruleClass,
                 if IsRule(source, found[0], ruleClass) && found[0] !in labels then labels + [found[0]] else labels)
  }

  function Places(found: seq<Label>): set<At> { set l | l in found :: l.at }

  /** The labels the patterns name, or the first failure; and every package asked for. */
  ghost function Expand(patterns: seq<Pattern>, source: Source, ruleClass: string, labels: seq<Label>)
    : (Result<seq<Label>, string>, set<At>)
    requires AllFinish(patterns)
    decreases |patterns|
  {
    if patterns == [] then (Ok(labels), {})
    else
      var (found, asked) := Query(patterns[0], source, []);
      match found
      case Err(e) => (Err(e), asked)
      case Ok(names) =>
        var (r, more) := Expand(patterns[1..], source, ruleClass, Collect(names, source, ruleClass, labels));
        (r, asked + Places(names) + more)
  }

  // ---------- The passes ----------

  function Lookup(known: map<At, Reply>, at: At): Reply {
    if at in known then known[at] else EMPTY
  }

  /** The packages loaded so far; one that is not is noted as missing and stands in as empty. */
  class Prefetched {
    const known: map<At, Reply>
    var missing: set<At>

    constructor (known: map<At, Reply>)
      ensures this.known == known && missing == {}
    {
      this.known := known;
      this.missing := {};
    }

    method Package(at: At) returns (r: Reply)
      modifies this
      ensures r == Lookup(known, at)
      ensures missing == old(missing) + ({at} - known.Keys)
    {
      if at in known {
        return known[at];
      }
      missing := missing + {at};
      r := EMPTY;
    }
  }

  /** Resolves one pattern against what is loaded. */
  method ResolvePattern(p: Pattern, source: Prefetched) returns (found: Result<seq<Label>, string>)
    requires Finishes(p)
    modifies source
    ensures var (f, asked) := Query(p, at => Lookup(source.known, at), []);
            found == f && source.missing == old(source.missing) + (asked - source.known.Keys)
  {
    ghost var view := at => Lookup(source.known, at);
    ghost var start := source.missing;
    ghost var done: set<At> := {};
    var replies: seq<Reply> := [];
    var action := p.next(replies);
    while action.Ask?
      invariant action == p.next(replies)
      invariant source.missing == start + (done - source.known.Keys)
      invariant Query(p, view, []).0 == Query(p, view, replies).0
      invariant Query(p, view, []).1 == done + Query(p, view, replies).1
      decreases p.steps - |replies|
    {
      assert |replies| < p.steps;
      var r := source.Package(action.at);
      done := done + {action.at};
      assert r == view(action.at);
      replies := replies + [r];
      action := p.next(replies);
    }
    found := action.found;
  }

  /** One pass over the patterns. */
  method ExpandPass(patterns: seq<Pattern>, ruleClass: string, source: Prefetched)
    returns (r: Result<seq<Label>, string>)
    requires AllFinish(patterns)
    modifies source
    ensures var (e, asked) := Expand(patterns, at => Lookup(source.known, at), ruleClass, []);
            r == e && source.missing == old(source.missing) + (asked - source.known.Keys)
  {
    hide Query, Collect, Lookup;
    ghost var view := at => Lookup(source.known, at);
    ghost var start := source.missing;
    ghost var done: set<At> := {};
    var labels: seq<Label> := [];
    assert patterns[0..] == patterns;
    for i := 0 to |patterns|
      invariant source.missing == start + (done - source.known.Keys)
      invariant Expand(patterns, view, ruleClass, []).0 == Expand(patterns[i..], view, ruleClass, labels).0
      invariant Expand(patterns, view, ruleClass, []).1 == done + Expand(patterns[i..], view, ruleClass, labels).1
    {
      ghost var rest := patterns[i..];
      assert rest[0] == patterns[i] && rest[1..] == patterns[i + 1..];
      var found := ResolvePattern(patterns[i], source);
      done := done + Query(patterns[i], view, []).1;
      if found.Err? {
        return Err(found.error);
      }
      labels := CollectFound(found.value, ruleClass, source, labels);
      done := done + Places(found.value);
    }
    assert patterns[|patterns|..] == [];
    r := Ok(labels);
  }

  method CollectFound(found: seq<Label>, ruleClass: string, source: Prefetched, before: seq<Label>)
    returns (labels: seq<Label>)
    modifies source
    ensures labels == Collect(found, at => Lookup(source.known, at), ruleClass, before)
    ensures source.missing == old(source.missing) + (Places(found) - source.known.Keys)
  {
    ghost var view := at => Lookup(source.known, at);
    labels := before;
    assert found[0..] == found;
    for i := 0 to |found|
      invariant source.missing == old(source.missing) + (Places(found[..i]) - source.known.Keys)
      invariant Collect(found[i..], view, ruleClass, labels) == Collect(found, view, ruleClass, before)
    {
      ghost var rest := found[i..];
      assert rest[0] == found[i] && rest[1..] == found[i + 1..];
      assert found[..i + 1] == found[..i] + [found[i]];
      assert Places(found[..i + 1]) == Places(found[..i]) + {found[i].at};
      var l := found[i];
      var r := source.Package(l.at);
      assert r == view(l.at);
      var isRule := r.Ok? && l.name in r.value.targets && r.value.targets[l.name] == NativeRule(ruleClass);
      if isRule && l !in labels {
        labels := labels + [l];
      }
    }
    assert found[..|found|] == found && found[|found|..] == [];
  }

  // ---------- Passes against placeholders ----------

  ghost predicate Agree(a: Source, b: Source, asked: set<At>) {
    forall at <- asked :: a(at) == b(at)
  }

  lemma {:induction false} QueryAgree(p: Pattern, a: Source, b: Source, replies: seq<Reply>)
    requires Finishes(p) && Agree(a, b, Query(p, a, replies).1)
    ensures Query(p, a, replies) == Query(p, b, replies)
    decreases p.steps - |replies|
  {
    var action := p.next(replies);
    if action.Ask? && |replies| < p.steps {
      assert action.at in Query(p, a, replies).1;
      QueryAgree(p, a, b, replies + [a(action.at)]);
    }
  }

  lemma {:induction false} CollectAgree(
    found: seq<Label>, a: Source, b: Source, ruleClass: string, labels: seq<Label>)
    requires Agree(a, b, Places(found))
    ensures Collect(found, a, ruleClass, labels) == Collect(found, b, ruleClass, labels)
    decreases |found|
  {
    if found != [] {
      assert found[0].at in Places(found);
      forall at <- Places(found[1..]) ensures at in Places(found) {
        var l :| l in found[1..] && l.at == at;
      }
      CollectAgree(found[1..], a, b, ruleClass,
                   if IsRule(a, found[0], ruleClass) && found[0] !in labels then labels + [found[0]] else labels);
    }
  }

  /** A pass depends on nothing but the packages it asks for. */
  lemma {:induction false} ExpandAgree(
    patterns: seq<Pattern>, a: Source, b: Source, ruleClass: string, labels: seq<Label>)
    requires AllFinish(patterns) && Agree(a, b, Expand(patterns, a, ruleClass, labels).1)
    ensures Expand(patterns, a, ruleClass, labels) == Expand(patterns, b, ruleClass, labels)
    decreases |patterns|
  {
    if patterns != [] {
      QueryAgree(patterns[0], a, b, []);
      var found := Query(patterns[0], a, []).0;
      if found.Ok? {
        CollectAgree(found.value, a, b, ruleClass, labels);
        ExpandAgree(patterns[1..], a, b, ruleClass, Collect(found.value, a, ruleClass, labels));
      }
    }
  }

  /** However the replies turn out, only packages of `universe` are asked for. */
  ghost predicate AsksWithin(p: Pattern, universe: set<At>) {
    forall replies ::
      match p.next(replies)
      case Ask(at) => at in universe
      case Finish(found) => found.Ok? ==> Places(found.value) <= universe
  }

  lemma {:induction false} QueryWithin(p: Pattern, source: Source, replies: seq<Reply>, universe: set<At>)
    requires Finishes(p) && AsksWithin(p, universe)
    ensures Query(p, source, replies).1 <= universe
    ensures Query(p, source, replies).0.Ok? ==> Places(Query(p, source, replies).0.value) <= universe
    decreases p.steps - |replies|
  {
    var action := p.next(replies);
    if action.Ask? && |replies| < p.steps {
      QueryWithin(p, source, replies + [source(action.at)], universe);
    }
  }

  lemma {:induction false} ExpandWithin(
    patterns: seq<Pattern>, source: Source, ruleClass: string, labels: seq<Label>, universe: set<At>)
    requires AllFinish(patterns) && forall i | 0 <= i < |patterns| :: AsksWithin(patterns[i], universe)
    ensures Expand(patterns, source, ruleClass, labels).1 <= universe
    decreases |patterns|
  {
    if patterns != [] {
      QueryWithin(patterns[0], source, [], universe);
      var found := Query(patterns[0], source, []).0;
      if found.Ok? {
        ExpandWithin(patterns[1..], source, ruleClass, Collect(found.value, source, ruleClass, labels), universe);
      }
    }
  }

  /**
   Passes until nothing is missing. The answer is what one pass over the engine's own packages would
   give; over a finite universe of packages the passes end, each repeated one having loaded a new one.
  */
  method Run(patterns: seq<Pattern>, ruleClass: string, engine: Source, ghost universe: set<At>)
    returns (r: Result<seq<Label>, string>)
    requires AllFinish(patterns) && forall i | 0 <= i < |patterns| :: AsksWithin(patterns[i], universe)
    ensures r == Expand(patterns, engine, ruleClass, []).0
  {
    var known: map<At, Reply> := map[];
    while true
      invariant forall at <- known :: known[at] == engine(at)
      invariant known.Keys <= universe
      decreases universe - known.Keys
    {
      var source := new Prefetched(known);
      r := ExpandPass(patterns, ruleClass, source);
      ghost var view := at => Lookup(known, at);
      ghost var asked := Expand(patterns, view, ruleClass, []).1;
      ExpandWithin(patterns, view, ruleClass, [], universe);
      var missing := source.missing;
      if missing == {} {
        ExpandAgree(patterns, view, engine, ruleClass, []);
        return;
      }
      ghost var before := known;
      known := known + map at | at in missing :: engine(at);
      assert known.Keys == before.Keys + missing;
      ghost var new_ :| new_ in missing;
      assert new_ in universe - before.Keys;
    }
  }

  /** Every label is there once, and is a rule of the class. */
  lemma {:induction false} CollectSound(found: seq<Label>, source: Source, ruleClass: string, labels: seq<Label>)
    requires Sound(labels, source, ruleClass)
    ensures Sound(Collect(found, source, ruleClass, labels), source, ruleClass)
    ensures forall l :: l in Collect(found, source, ruleClass, labels)
                        <==> l in labels || (l in found && IsRule(source, l, ruleClass))
    decreases |found|
  {
    if found != [] {
      var labels' := if IsRule(source, found[0], ruleClass) && found[0] !in labels then labels + [found[0]] else labels;
      CollectSound(found[1..], source, ruleClass, labels');
    }
  }

  predicate Sound(labels: seq<Label>, source: Source, ruleClass: string) {
    && (forall i, j | 0 <= i < j < |labels| :: labels[i] != labels[j])
    && forall i | 0 <= i < |labels| :: IsRule(source, labels[i], ruleClass)
  }

  lemma {:induction false} ExpandSound(patterns: seq<Pattern>, source: Source, ruleClass: string, labels: seq<Label>)
    requires AllFinish(patterns) && Sound(labels, source, ruleClass)
    ensures Expand(patterns, source, ruleClass, labels).0.Ok? ==>
              Sound(Expand(patterns, source, ruleClass, labels).0.value, source, ruleClass)
    decreases |patterns|
  {
    if patterns != [] {
      var found := Query(patterns[0], source, []).0;
      if found.Ok? {
        CollectSound(found.value, source, ruleClass, labels);
        ExpandSound(patterns[1..], source, ruleClass, Collect(found.value, source, ruleClass, labels));
      }
    }
  }

  // ---------- What an expansion gives ----------

  /** What pattern after pattern names. */
  ghost function AllNamed(patterns: seq<Pattern>, source: Source): seq<Label>
    requires AllFinish(patterns)
  {
    if patterns == [] then []
    else
      match Query(patterns[0], source, []).0
      case Err(_) => []
      case Ok(names) => names + AllNamed(patterns[1..], source)
  }

  lemma {:induction false} CollectAppend(
    a: seq<Label>, b: seq<Label>, source: Source, ruleClass: string, labels: seq<Label>)
    ensures Collect(a + b, source, ruleClass, labels) == Collect(b, source, ruleClass, Collect(a, source, ruleClass, labels))
    decreases |a|
  {
    hide IsRule;
    if a == [] {
      assert a + b == b;
    } else {
      assert (a + b)[1..] == a[1..] + b;
      var labels' := if IsRule(source, a[0], ruleClass) && a[0] !in labels then labels + [a[0]] else labels;
      CollectAppend(a[1..], b, source, ruleClass, labels');
    }
  }

  /** An expansion collects from what all its patterns name; it fails as the first pattern that fails. */
  lemma {:induction false} ExpandIsCollect(patterns: seq<Pattern>, source: Source, ruleClass: string, labels: seq<Label>)
    requires AllFinish(patterns)
    ensures var r := Expand(patterns, source, ruleClass, labels).0;
            && (r.Ok? ==> r.value == Collect(AllNamed(patterns, source), source, ruleClass, labels)
                          && forall i | 0 <= i < |patterns| :: Query(patterns[i], source, []).0.Ok?)
            && (r.Err? ==> exists i: nat :: FailsFirst(patterns, source, i) && Query(patterns[i], source, []).0 == Err(r.error))
    decreases |patterns|
  {
    hide Query, Collect;
    if patterns == [] {
      CollectNothing(source, ruleClass, labels);
    } else {
      var found := Query(patterns[0], source, []).0;
      assert forall i | 0 < i < |patterns| :: patterns[i] == patterns[1..][i - 1];
      if found.Ok? {
        var labels' := Collect(found.value, source, ruleClass, labels);
        ExpandIsCollect(patterns[1..], source, ruleClass, labels');
        CollectAppend(found.value, AllNamed(patterns[1..], source), source, ruleClass, labels);
        if Expand(patterns[1..], source, ruleClass, labels').0.Err? {
          var i: nat :| FailsFirst(patterns[1..], source, i);
          var next: nat := i + 1;
          assert FailsFirst(patterns, source, next);
        }
      } else {
        assert FailsFirst(patterns, source, 0);
      }
    }
  }

  ghost predicate FailsFirst(patterns: seq<Pattern>, source: Source, i: nat)
    requires AllFinish(patterns)
  {
    && i < |patterns| && Query(patterns[i], source, []).0.Err?
    && forall j | 0 <= j < i :: Query(patterns[j], source, []).0.Ok?
  }

  lemma CollectNothing(source: Source, ruleClass: string, labels: seq<Label>)
    ensures Collect([], source, ruleClass, labels) == labels
  {
  }

  /** `l` is named, and `later` not up to there. */
  ghost predicate NamedBefore(named: seq<Label>, l: Label, later: Label) {
    exists i :: 0 <= i < |named| && named[i] == l && later !in named[..i + 1]
  }

  lemma {:induction false} CollectOrder(found: seq<Label>, source: Source, ruleClass: string, before: seq<Label>)
    requires Sound(Collect(before, source, ruleClass, []), source, ruleClass)
    requires forall i, j | 0 <= i < j < |Collect(before, source, ruleClass, [])| ::
               var c := Collect(before, source, ruleClass, []); NamedBefore(before, c[i], c[j])
    ensures forall i, j | 0 <= i < j < |Collect(before + found, source, ruleClass, [])| ::
              var c := Collect(before + found, source, ruleClass, []); NamedBefore(before + found, c[i], c[j])
    decreases |found|
  {
    if found == [] {
      assert before + found == before;
    } else {
      var more := before + [found[0]];
      OneMore(before, found[0], source, ruleClass);
      Assoc(before, [found[0]], found[1..]);
      assert [found[0]] + found[1..] == found;
      CollectOrder(found[1..], source, ruleClass, more);
    }
  }

  lemma OneMore(before: seq<Label>, l: Label, source: Source, ruleClass: string)
    requires Sound(Collect(before, source, ruleClass, []), source, ruleClass)
    requires forall i, j | 0 <= i < j < |Collect(before, source, ruleClass, [])| ::
               var c := Collect(before, source, ruleClass, []); NamedBefore(before, c[i], c[j])
    ensures Sound(Collect(before + [l], source, ruleClass, []), source, ruleClass)
    ensures forall i, j | 0 <= i < j < |Collect(before + [l], source, ruleClass, [])| ::
              var c := Collect(before + [l], source, ruleClass, []); NamedBefore(before + [l], c[i], c[j])
  {
    var c, all := Collect(before, source, ruleClass, []), before + [l];
    CollectAppend(before, [l], source, ruleClass, []);
    CollectSound(before, source, ruleClass, []);
    CollectSound(all, source, ruleClass, []);
    var c' := Collect(all, source, ruleClass, []);
    CollectOne(l, source, ruleClass, c);
    assert |c'| > |c| ==> l !in before && c'[|c|] == l;
    hide Collect, IsRule, NamedBefore, Sound;
    forall i, j | 0 <= i < j < |c'| ensures NamedBefore(all, c'[i], c'[j]) {
      assert c'[i] == c[i] && c[i] in c;
      if j < |c| {
        NamedStays(before, l, c[i], c[j]);
      } else {
        NamedThenNew(before, l, c[i]);
      }
    }
  }

  lemma NamedStays(named: seq<Label>, l: Label, a: Label, b: Label)
    requires NamedBefore(named, a, b)
    ensures NamedBefore(named + [l], a, b)
  {
    var all := named + [l];
    var i :| 0 <= i < |named| && named[i] == a && b !in named[..i + 1];
    assert all[i] == a && all[..i + 1] == named[..i + 1];
  }

  lemma NamedThenNew(named: seq<Label>, l: Label, a: Label)
    requires a in named && l !in named
    ensures NamedBefore(named + [l], a, l)
  {
    var all := named + [l];
    var i :| 0 <= i < |named| && named[i] == a;
    assert all[i] == a && all[..i + 1] == named[..i + 1];
    assert forall x <- named[..i + 1] :: x in named;
  }

  lemma CollectOne(l: Label, source: Source, ruleClass: string, labels: seq<Label>)
    ensures Collect([l], source, ruleClass, labels)
         == if IsRule(source, l, ruleClass) && l !in labels then labels + [l] else labels
  {
    hide IsRule;
    assert [l][1..] == [];
  }

  /** There is a package, and in it a rule of the class under the name. */
  ghost predicate Declares(reply: Reply, name: string, ruleClass: string) {
    exists package :: reply == Ok(package) && name in package.targets && package.targets[name] == NativeRule(ruleClass)
  }

  lemma RuleIsDeclared(source: Source, l: Label, ruleClass: string)
    ensures IsRule(source, l, ruleClass) <==> Declares(source(l.at), l.name, ruleClass)
  {
    if IsRule(source, l, ruleClass) {
      assert source(l.at) == Ok(source(l.at).value);
    }
  }

  /**
   An expansion that succeeds gives exactly the rules of the class that its patterns name, all of them, each
   once, in the order in which they are first named.
  */
  lemma ExpandGives(patterns: seq<Pattern>, source: Source, ruleClass: string)
    requires AllFinish(patterns) && Expand(patterns, source, ruleClass, []).0.Ok?
    ensures var labels, named := Expand(patterns, source, ruleClass, []).0.value, AllNamed(patterns, source);
            && (forall l :: l in labels <==> l in named && Declares(source(l.at), l.name, ruleClass))
            && (forall i, j | 0 <= i < j < |labels| :: labels[i] != labels[j] && NamedBefore(named, labels[i], labels[j]))
    ensures forall i | 0 <= i < |patterns| :: Query(patterns[i], source, []).0.Ok?
    ensures forall l :: l in AllNamed(patterns, source)
                   <==> exists i | 0 <= i < |patterns| :: l in Query(patterns[i], source, []).0.value
  {
    ExpandIsCollect(patterns, source, ruleClass, []);
    var named := AllNamed(patterns, source);
    CollectSound(named, source, ruleClass, []);
    CollectNothing(source, ruleClass, []);
    CollectOrder(named, source, ruleClass, []);
    assert [] + named == named;
    AllNamedAre(patterns, source);
    hide Collect, Query, IsRule, Expand, Declares;
    forall l ensures IsRule(source, l, ruleClass) <==> Declares(source(l.at), l.name, ruleClass) {
      RuleIsDeclared(source, l, ruleClass);
    }
  }

  lemma {:induction false} AllNamedAre(patterns: seq<Pattern>, source: Source)
    requires AllFinish(patterns) && forall i | 0 <= i < |patterns| :: Query(patterns[i], source, []).0.Ok?
    ensures forall l :: l in AllNamed(patterns, source)
                   <==> exists i | 0 <= i < |patterns| :: l in Query(patterns[i], source, []).0.value
    decreases |patterns|
  {
    hide Query;
    if patterns != [] {
      assert forall i | 0 < i < |patterns| :: patterns[i] == patterns[1..][i - 1];
      assert forall i | 0 <= i < |patterns| - 1 :: patterns[1..][i] == patterns[i + 1];
      AllNamedAre(patterns[1..], source);
    }
  }
}
