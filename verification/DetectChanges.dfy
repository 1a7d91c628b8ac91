/**
 ci/detect-changes.py: which CI topics does a list of changed files touch?

 The walk over the dependency table marks topics in a dictionary and remembers, after the
 fact, which topics it has finished.  It is proved to compute reachability; and it is
 proved to finish, however deep the stack, exactly when no cycle can be reached, although
 a comment in the source expects it to end on cycles too.
 */
module DetectChanges {
  import opened Common
  import opened PathParts

  type Table = map<string, seq<string>>

  /** AFFECTED_DEPENDENCIES.get(component, ()). */
  function Dependents(table: Table, component: string): seq<string> {
    if component in table then table[component] else []
  }

  // ---------------------------------------------------------------- reachability

  ghost predicate ReachesIn(table: Table, a: string, b: string, n: nat)
    decreases n
  {
    if n == 0 then a == b
    else exists c :: c in Dependents(table, a) && ReachesIn(table, c, b, n - 1)
  }

  /** b depends on a, through one or more entries of the table. */
  ghost predicate Reaches(table: Table, a: string, b: string) {
    exists n: nat :: n > 0 && ReachesIn(table, a, b, n)
  }

  lemma ReachesStep(table: Table, a: string, c: string, b: string)
    requires c in Dependents(table, a) && (c == b || Reaches(table, c, b))
    ensures Reaches(table, a, b)
  {
    if c == b {
      assert ReachesIn(table, c, b, 0);
      assert ReachesIn(table, a, b, 1);
    } else {
      var n: nat :| n > 0 && ReachesIn(table, c, b, n);
      assert ReachesIn(table, a, b, n + 1);
    }
  }

  lemma ReachesFirst(table: Table, a: string, b: string) returns (c: string)
    requires Reaches(table, a, b)
    ensures c in Dependents(table, a) && (c == b || Reaches(table, c, b))
  {
    var n: nat :| n > 0 && ReachesIn(table, a, b, n);
    c :| c in Dependents(table, a) && ReachesIn(table, c, b, n - 1);
  }

  lemma {:induction false} ReachesInTransitive(table: Table, a: string, b: string, c: string, n: nat)
    requires ReachesIn(table, a, b, n) && Reaches(table, b, c)
    ensures Reaches(table, a, c)
    decreases n
  {
    if n == 0 {
    } else {
      var d :| d in Dependents(table, a) && ReachesIn(table, d, b, n - 1);
      ReachesInTransitive(table, d, b, c, n - 1);
      ReachesStep(table, a, d, c);
    }
  }

  lemma ReachesTransitive(table: Table, a: string, b: string, c: string)
    requires Reaches(table, a, b) && Reaches(table, b, c)
    ensures Reaches(table, a, c)
  {
    var n: nat :| n > 0 && ReachesIn(table, a, b, n);
    ReachesInTransitive(table, a, b, c, n);
  }

  // ---------------------------------------------------------------- chains in the table

  /** The table lists b under a. */
  predicate Listed(table: Table, a: string, b: string) {
    a in table && b in table[a]
  }

  /** A chain of at least one link, each listed in the table. */
  ghost predicate IsChain(table: Table, p: seq<string>) {
    |p| > 1 && forall i, j | 0 <= i && j == i + 1 < |p| :: Listed(table, p[i], p[j])
  }

  lemma OneLink(table: Table, a: string, c: string)
    ensures ReachesIn(table, a, c, 1) <==> a in table && c in table[a]
  {
    LinkIsListed(table, a, c);
    if Listed(table, a, c) {
      assert c in Dependents(table, a) && ReachesIn(table, c, c, 0);
      assert ReachesIn(table, a, c, 1);
    }
    if ReachesIn(table, a, c, 1) {
      var d :| d in Dependents(table, a) && ReachesIn(table, d, c, 0);
      assert d == c;
    }
  }

  lemma LinkIsListed(table: Table, a: string, c: string)
    ensures c in Dependents(table, a) <==> Listed(table, a, c)
  {
  }

  lemma ChainCons(table: Table, a: string, p: seq<string>)
    requires p != [] && Listed(table, a, p[0]) && (|p| == 1 || IsChain(table, p))
    ensures IsChain(table, [a] + p)
  {
    var q := [a] + p;
    forall i, j | 0 <= i && j == i + 1 < |q| ensures Listed(table, q[i], q[j]) {
      if i > 0 {
        assert q[i] == p[i - 1] && q[j] == p[j - 1];
      }
    }
  }

  lemma {:induction false} ReachesInChain(table: Table, a: string, b: string, n: nat) returns (p: seq<string>)
    requires n > 0 && ReachesIn(table, a, b, n)
    ensures IsChain(table, p) && p[0] == a && p[|p| - 1] == b
    decreases n
  {
    var c :| c in Dependents(table, a) && ReachesIn(table, c, b, n - 1);
    LinkIsListed(table, a, c);
    if n == 1 {
      ChainCons(table, a, [b]);
      p := [a, b];
    } else {
      var q := ReachesInChain(table, c, b, n - 1);
      ChainCons(table, a, q);
      p := [a] + q;
    }
  }

  lemma {:induction false} ChainReaches(table: Table, p: seq<string>)
    requires IsChain(table, p)
    ensures Reaches(table, p[0], p[|p| - 1])
    decreases |p|
  {
    var rest := p[1..];
    assert Listed(table, p[0], p[1]);
    LinkIsListed(table, p[0], p[1]);
    if |rest| > 1 {
      forall i, j | 0 <= i && j == i + 1 < |rest| ensures Listed(table, rest[i], rest[j]) {
        assert rest[i] == p[i + 1] && rest[j] == p[j + 1];
      }
      ChainReaches(table, rest);
    }
    ReachesStep(table, p[0], p[1], p[|p| - 1]);
  }

  /** One topic reaches another exactly when there is a chain from the one to the other in which the
      table lists each topic under the one before. */
  lemma ReachesIsChain(table: Table, a: string, b: string)
    ensures Reaches(table, a, b) <==> exists p :: IsChain(table, p) && p[0] == a && p[|p| - 1] == b
  {
    if Reaches(table, a, b) {
      var n: nat :| n > 0 && ReachesIn(table, a, b, n);
      var p := ReachesInChain(table, a, b, n);
    }
    if p :| IsChain(table, p) && p[0] == a && p[|p| - 1] == b {
      ChainReaches(table, p);
    }
  }

  // ---------------------------------------------------------------- cycles

  /** Every chain of dependencies from a has at most n links. */
  ghost predicate HeightAtMost(table: Table, a: string, n: nat)
    decreases n
  {
    if n == 0 then Dependents(table, a) == []
    else forall c <- Dependents(table, a) :: HeightAtMost(table, c, n - 1)
  }

  ghost predicate Finite(table: Table, a: string) {
    exists n: nat :: HeightAtMost(table, a, n)
  }

  ghost predicate OnCycle(table: Table, x: string) {
    Reaches(table, x, x)
  }

  ghost predicate Acyclic(table: Table, a: string) {
    !OnCycle(table, a) && forall x | Reaches(table, a, x) :: !OnCycle(table, x)
  }

  lemma {:induction false} HeightGrows(table: Table, a: string, n: nat, m: nat)
    requires HeightAtMost(table, a, n) && n <= m
    ensures HeightAtMost(table, a, m)
    decreases m
  {
    if m == 0 {
    } else {
      forall c <- Dependents(table, a) ensures HeightAtMost(table, c, m - 1) {
        if n > 0 {
          HeightGrows(table, c, n - 1, m - 1);
        }
      }
    }
  }

  lemma HeightFromDependents(table: Table, a: string, n: nat)
    requires forall c <- Dependents(table, a) :: HeightAtMost(table, c, n)
    ensures HeightAtMost(table, a, n + 1)
  {
  }

  /** If nothing depends on any dependent of a, chains from a have at most one link. */
  lemma HeightOverLeaves(table: Table, a: string, leaves: seq<string>, n: nat)
    requires forall l <- leaves :: Dependents(table, l) == []
    requires forall c <- Dependents(table, a) :: c in leaves
    ensures HeightAtMost(table, a, n + 1)
  {
    forall c <- Dependents(table, a) ensures HeightAtMost(table, c, n) {
      assert Dependents(table, c) == [];
    }
  }

  lemma {:induction false} HeightBoundsReach(table: Table, a: string, b: string, n: nat)
    requires HeightAtMost(table, a, n) && Reaches(table, a, b)
    ensures n > 0 && HeightAtMost(table, b, n - 1)
    decreases n
  {
    var c := ReachesFirst(table, a, b);
    if c != b {
      HeightBoundsReach(table, c, b, n - 1);
      HeightGrows(table, b, n - 2, n - 1);
    }
  }

  lemma {:induction false} NoHeightOnCycle(table: Table, x: string, n: nat)
    requires OnCycle(table, x)
    ensures !HeightAtMost(table, x, n)
    decreases n
  {
    if HeightAtMost(table, x, n) {
      HeightBoundsReach(table, x, x, n);
      NoHeightOnCycle(table, x, n - 1);
    }
  }

  /** Nodes of `seen` lead to a; on a chain without cycles a is not among them. */
  lemma {:induction false} AcyclicHeight(table: Table, a: string, seen: set<string>)
    requires Acyclic(table, a) && seen <= table.Keys
    requires forall s <- seen :: Reaches(table, s, a)
    ensures HeightAtMost(table, a, |table.Keys - seen|)
    decreases |table.Keys - seen|
  {
    if Dependents(table, a) != [] {
      assert a !in seen;
      var seen' := seen + {a};
      assert table.Keys - seen == (table.Keys - seen') + {a};
      forall c <- Dependents(table, a) ensures HeightAtMost(table, c, |table.Keys - seen'|) {
        ReachesStep(table, a, c, c);
        forall x | Reaches(table, c, x) ensures !OnCycle(table, x) {
          ReachesTransitive(table, a, c, x);
        }
        forall s <- seen' ensures Reaches(table, s, c) {
          if s != a { ReachesTransitive(table, s, a, c); }
        }
        AcyclicHeight(table, c, seen');
      }
    } else if |table.Keys - seen| > 0 {
    }
  }

  /** Chains from a are bounded exactly when no cycle can be reached. */
  lemma FiniteIffAcyclic(table: Table, a: string)
    ensures Finite(table, a) <==> Acyclic(table, a)
    ensures Acyclic(table, a) ==> HeightAtMost(table, a, |table|)
  {
    if Acyclic(table, a) {
      AcyclicHeight(table, a, {});
      assert table.Keys - {} == table.Keys;
    }
    if Finite(table, a) {
      var n: nat :| HeightAtMost(table, a, n);
      if OnCycle(table, a) { NoHeightOnCycle(table, a, n); }
      forall x | Reaches(table, a, x) ensures !OnCycle(table, x) {
        HeightBoundsReach(table, a, x, n);
        if OnCycle(table, x) { NoHeightOnCycle(table, x, n - 1); }
      }
    }
  }

  lemma HeightMeansAcyclic(table: Table, a: string, n: nat)
    requires HeightAtMost(table, a, n)
    ensures Acyclic(table, a)
  {
    FiniteIffAcyclic(table, a);
  }

  // ---------------------------------------------------------------- the walk

  /** Whether the dictionary has t set to True. */
  predicate IsOn(affected: map<string, bool>, t: string) {
    t in affected && affected[t]
  }

  /** Topic t is on afterwards if it was before or `on` holds, and otherwise as before. */
  ghost predicate Turned(before: map<string, bool>, after: map<string, bool>, t: string, on: bool) {
    && (t in after <==> t in before || on)
    && (IsOn(after, t) <==> IsOn(before, t) || on)
  }

  /** `after` is `before` with everything reachable from a switched on, and nothing else changed. */
  ghost predicate SwitchedOn(table: Table, before: map<string, bool>, after: map<string, bool>, a: string) {
    forall t :: Turned(before, after, t, Reaches(table, a, t))
  }

  /** Nothing is lost or switched off, and what is new or switched on is reachable from a. */
  ghost predicate OnlyReachable(table: Table, before: map<string, bool>, after: map<string, bool>, a: string) {
    forall t :: ChangedOnlyBy(before, after, t, Reaches(table, a, t))
  }

  ghost predicate ChangedOnlyBy(before: map<string, bool>, after: map<string, bool>, t: string, on: bool) {
    && (t in before ==> t in after) && (IsOn(before, t) ==> IsOn(after, t))
    && (t in after ==> t in before || on) && (IsOn(after, t) ==> IsOn(before, t) || on)
  }

  /** The state in the middle of the loop over the dependents of a, when the call on the i-th did
      not come back: only the part that was reached has changed. */
  lemma OnlyReachableInside(table: Table, start: map<string, bool>, before: map<string, bool>,
                            marked: map<string, bool>, after: map<string, bool>, a: string, i: nat)
    requires i < |Dependents(table, a)|
    requires var topics := Dependents(table, a);
      && SwitchedOnBy(table, start, before, topics[..i]) && marked == before[topics[i] := true]
      && OnlyReachable(table, marked, after, topics[i])
    ensures OnlyReachable(table, start, after, a)
  {
    var topics := Dependents(table, a);
    var topic := topics[i];
    assert topic in topics;
    forall t ensures ChangedOnlyBy(start, after, t, Reaches(table, a, t)) {
      assert Turned(start, before, t, By(table, topics[..i], t));
      assert ChangedOnlyBy(marked, after, t, Reaches(table, topic, t));
      if By(table, topics[..i], t) {
        ByReaches(table, a, i, t);
      }
      if topic == t || Reaches(table, topic, t) {
        ReachesStep(table, a, topic, t);
      }
    }
  }

  lemma ByReaches(table: Table, a: string, i: nat, t: string)
    requires i <= |Dependents(table, a)| && By(table, Dependents(table, a)[..i], t)
    ensures Reaches(table, a, t)
  {
    var topics := Dependents(table, a);
    var c := t;
    if t !in topics[..i] {
      c :| c in topics[..i] && Reaches(table, c, t);
    }
    assert c in topics;
    ReachesStep(table, a, c, t);
  }

  /** The dictionaries that the nested function _affect_dependencies updates. */
  class Walk {
    const table: Table
    var affected: map<string, bool>
    var already: set<string>

    constructor (table: Table, affected: map<string, bool>)
      ensures this.table == table && this.affected == affected && already == {}
    {
      this.table := table;
      this.affected := affected;
      already := {};
    }

    /** A topic counts as done only when everything reachable from it is on. */
    ghost predicate Valid()
      reads this
    {
      forall t, u | t in already && Reaches(table, t, u) :: IsOn(affected, u)
    }

    ghost predicate AllFinite()
      reads this
    {
      forall t <- already :: Finite(table, t)
    }

    /** `frames` is what is left of Python's stack; `ok` is false after a RecursionError. */
    method AffectDependencies(component: string, frames: nat) returns (ok: bool)
      requires Valid() && AllFinite()
      modifies this
      ensures old(already) <= already && AllFinite()
      ensures ok ==> Valid() && SwitchedOn(table, old(affected), affected, component)
      ensures OnlyReachable(table, old(affected), affected, component)
      ensures ok ==> Finite(table, component)
      ensures forall n: nat | n < frames && HeightAtMost(table, component, n) :: ok
      decreases frames
    {
      if frames == 0 {
        return false;
      }
      if component in already {
        return true;
      }
      var topics := Dependents(table, component);
      var i := 0;
      while i < |topics|
        invariant 0 <= i <= |topics|
        invariant old(already) <= already && Valid() && AllFinite()
        invariant SwitchedOnBy(table, old(affected), affected, topics[..i])
        invariant forall k | 0 <= k < i :: Finite(table, topics[k])
      {
        var topic := topics[i];
        ghost var before := affected;
        affected := affected[topic := true];
        ghost var marked := affected;
        assert topic in topics;
        assert forall n: nat | HeightAtMost(table, component, n) :: n > 0 && HeightAtMost(table, topic, n - 1);
        ok := AffectDependencies(topic, frames - 1);
        if !ok {
          OnlyReachableInside(table, old(affected), before, marked, affected, component, i);
          return false;
        }
        SwitchedOnSnoc(table, old(affected), before, marked, affected, topics, i);
        already := already + {topic};
        i := i + 1;
      }
      ok := true;
      SwitchedOnAll(table, old(affected), affected, component, topics);
      SwitchedOnIsOnlyReachable(table, old(affected), affected, component);
      FiniteAll(table, component);
    }
  }

  lemma SwitchedOnIsOnlyReachable(table: Table, before: map<string, bool>, after: map<string, bool>, a: string)
    requires SwitchedOn(table, before, after, a)
    ensures OnlyReachable(table, before, after, a)
  {
    forall t ensures ChangedOnlyBy(before, after, t, Reaches(table, a, t)) {
      assert Turned(before, after, t, Reaches(table, a, t));
    }
  }

  /** Everything in `topics` and everything reachable from it is on. */
  ghost predicate By(table: Table, topics: seq<string>, t: string) {
    t in topics || exists c <- topics :: Reaches(table, c, t)
  }

  ghost predicate SwitchedOnBy(table: Table, before: map<string, bool>, after: map<string, bool>, topics: seq<string>) {
    forall t :: Turned(before, after, t, By(table, topics, t))
  }

  lemma BySnoc(table: Table, topics: seq<string>, i: nat, t: string)
    requires i < |topics|
    ensures By(table, topics[..i + 1], t)
      <==> By(table, topics[..i], t) || topics[i] == t || Reaches(table, topics[i], t)
  {
    assert topics[..i + 1] == topics[..i] + [topics[i]];
    assert topics[i] in topics[..i + 1];
    if c :| c in topics[..i + 1] && Reaches(table, c, t) {
      assert c in topics[..i] || c == topics[i];
    }
    if c :| c in topics[..i] && Reaches(table, c, t) {
      assert c in topics[..i + 1];
    }
  }

  lemma SwitchedOnSnoc(table: Table, start: map<string, bool>, before: map<string, bool>, marked: map<string, bool>,
                       after: map<string, bool>, topics: seq<string>, i: nat)
    requires i < |topics| && SwitchedOnBy(table, start, before, topics[..i])
    requires marked == before[topics[i] := true] && SwitchedOn(table, marked, after, topics[i])
    ensures SwitchedOnBy(table, start, after, topics[..i + 1])
  {
    var more := topics[..i + 1];
    forall t ensures Turned(start, after, t, By(table, more, t)) {
      BySnoc(table, topics, i, t);
      assert Turned(start, before, t, By(table, topics[..i], t));
      assert Turned(before, marked, t, topics[i] == t);
      assert Turned(marked, after, t, Reaches(table, topics[i], t));
    }
  }

  lemma SwitchedOnAll(table: Table, before: map<string, bool>, after: map<string, bool>, a: string, topics: seq<string>)
    requires topics == Dependents(table, a) && SwitchedOnBy(table, before, after, topics[..|topics|])
    ensures SwitchedOn(table, before, after, a)
  {
    assert topics[..|topics|] == topics;
    forall t ensures By(table, topics, t) <==> Reaches(table, a, t) {
      if By(table, topics, t) {
        var c := t;
        if t !in topics {
          c :| c in topics && Reaches(table, c, t);
        }
        ReachesStep(table, a, c, t);
      }
      if Reaches(table, a, t) {
        var c := ReachesFirst(table, a, t);
      }
      assert Turned(before, after, t, By(table, topics, t));
    }
  }

  /** If every dependent has bounded chains, so does a. */
  lemma FiniteAll(table: Table, a: string)
    requires forall c <- Dependents(table, a) :: Finite(table, c)
    ensures Finite(table, a)
  {
    var n := CommonHeight(table, Dependents(table, a));
    assert HeightAtMost(table, a, n + 1);
  }

  lemma {:induction false} CommonHeight(table: Table, cs: seq<string>) returns (n: nat)
    requires forall c <- cs :: Finite(table, c)
    ensures forall c <- cs :: HeightAtMost(table, c, n)
  {
    if cs == [] {
      n := 0;
    } else {
      var m := CommonHeight(table, cs[1..]);
      assert cs[0] in cs;
      var k: nat :| HeightAtMost(table, cs[0], k);
      n := if m < k then k else m;
      forall c <- cs ensures HeightAtMost(table, c, n) {
        if c == cs[0] { HeightGrows(table, c, k, n); } else { assert c in cs[1..]; HeightGrows(table, c, m, n); }
      }
    }
  }

  // ---------------------------------------------------------------- get_affected_topics

  /** parts[0] and parts[-1] of a path. */
  function First(path: string): string {
    Components(path)[0]
  }

  function FileName(path: string): string {
    var parts := Components(path);
    parts[|parts| - 1]
  }

  predicate IsReadme(path: string) {
    "README" <= FileName(path)
  }

  /** A change to `path` concerns topic t. */
  ghost predicate Touches(table: Table, components: set<string>, path: string, t: string) {
    var p := First(path);
    path != "" && !IsReadme(path) && ((p in components && t == p) || Reaches(table, p, t))
  }

  /** The same, read off the path and the table alone. */
  lemma TouchesByTable(table: Table, components: set<string>, path: string, t: string)
    requires path != "" && path[0] != '/'
    ensures Touches(table, components, path, t) <==>
      && !("README" <= path[AfterLastSlash(path)..])
      && (var p := path[..FindSlash(path)];
          (t == p && p in components) || exists c :: IsChain(table, c) && c[0] == p && c[|c| - 1] == t)
  {
    EndComponents(path);
    ReachesIsChain(table, First(path), t);
  }

  ghost predicate Touched(table: Table, components: set<string>, files: seq<string>, t: string) {
    exists f <- files :: Touches(table, components, f, t)
  }

  /** The answer for `files`, beginning with the dictionary `start`. */
  ghost predicate Answers(table: Table, components: set<string>, files: seq<string>,
                          start: map<string, bool>, affected: map<string, bool>)
  {
    forall t :: Turned(start, affected, t, Touched(table, components, files, t))
  }

  function AllOff(topics: seq<string>): (r: map<string, bool>)
    ensures forall t :: (t in r <==> t in topics) && !IsOn(r, t)
  {
    map t | t in topics :: false
  }

  /** One turn of the loop over the files. */
  method AffectPath(table: Table, components: set<string>, path: string, affected: map<string, bool>, frames: nat)
    returns (r: Option<map<string, bool>>)
    requires path != "" ==> path[0] != '/'
    ensures r.Some? ==> path != "" && forall t :: Turned(affected, r.value, t, Touches(table, components, path, t))
    ensures r.Some? ==> IsReadme(path) || Finite(table, First(path))
    ensures path != "" && IsReadme(path) ==> r.Some?
    ensures path != "" ==> forall n: nat | n < frames && HeightAtMost(table, First(path), n) :: r.Some?
  {
    var parts := SplitPath(path);
    if parts == [] {
      return None;
    }
    var p, fn := parts[0], parts[|parts| - 1];
    if "README" <= fn {
      return Some(affected);
    }
    var marked := if p in components then affected[p := true] else affected;
    var walk := new Walk(table, marked);
    var ok := walk.AffectDependencies(p, frames);
    if !ok {
      return None;
    }
    forall t ensures Turned(affected, walk.affected, t, Touches(table, components, path, t)) {
      assert Turned(affected, marked, t, p in components && t == p);
      assert Turned(marked, walk.affected, t, Reaches(table, p, t));
    }
    return Some(walk.affected);
  }

  lemma AnswersSnoc(table: Table, components: set<string>, files: seq<string>, path: string,
                    start: map<string, bool>, before: map<string, bool>, after: map<string, bool>)
    requires Answers(table, components, files, start, before)
    requires forall t :: Turned(before, after, t, Touches(table, components, path, t))
    ensures Answers(table, components, files + [path], start, after)
  {
    var more := files + [path];
    assert path in more;
    forall t ensures Turned(start, after, t, Touched(table, components, more, t)) {
      assert Turned(start, before, t, Touched(table, components, files, t));
      assert Turned(before, after, t, Touches(table, components, path, t));
      TouchedConcat(table, components, files, [path], t);
      assert Touched(table, components, [path], t) <==> Touches(table, components, path, t) by {
        assert path in [path];
      }
    }
  }

  /** get_affected_topics.  None stands for an exception: the assertion on an empty path, or
      a RecursionError. */
  method GetAffectedTopics(table: Table, components: set<string>, topics: seq<string>, files: seq<string>, frames: nat)
    returns (r: Option<map<string, bool>>)
    requires forall f <- files :: f != "" ==> f[0] != '/'
    ensures r.Some? ==> Answers(table, components, files, AllOff(topics), r.value)
    ensures r.Some? ==> forall f <- files :: f != "" && (IsReadme(f) || Acyclic(table, First(f)))
    ensures frames > |table| && (forall f <- files :: f != "" && (IsReadme(f) || Acyclic(table, First(f)))) ==> r.Some?
  {
    var affected := AllOff(topics);
    var i := 0;
    while i < |files|
      invariant 0 <= i <= |files|
      invariant Answers(table, components, files[..i], AllOff(topics), affected)
      invariant forall k | 0 <= k < i :: files[k] != "" && (IsReadme(files[k]) || Acyclic(table, First(files[k])))
    {
      var path := files[i];
      assert path in files;
      FiniteIffAcyclic(table, First(path));
      var step := AffectPath(table, components, path, affected, frames);
      if step.None? {
        return None;
      }
      AnswersSnoc(table, components, files[..i], path, AllOff(topics), affected, step.value);
      assert files[..i + 1] == files[..i] + [path];
      affected := step.value;
      i := i + 1;
    }
    assert files[..i] == files;
    return Some(affected);
  }

  lemma TouchedConcat(table: Table, components: set<string>, a: seq<string>, b: seq<string>, t: string)
    ensures Touched(table, components, a + b, t)
      <==> Touched(table, components, a, t) || Touched(table, components, b, t)
  {
    if f :| f in a && Touches(table, components, f, t) { assert f in a + b; }
    if f :| f in b && Touches(table, components, f, t) { assert f in a + b; }
    if f :| f in a + b && Touches(table, components, f, t) { assert f in a || f in b; }
  }

  // ---------------------------------------------------------------- several answers

  /** Two dictionaries put together: a topic is on if it is on in one of them. */
  function Either(a: map<string, bool>, b: map<string, bool>): (r: map<string, bool>)
    ensures forall t :: (t in r <==> t in a || t in b) && (IsOn(r, t) <==> IsOn(a, t) || IsOn(b, t))
  {
    map t | t in a.Keys + b.Keys :: IsOn(a, t) || IsOn(b, t)
  }

  /** A dictionary is known from its keys and from what is on in it. */
  lemma SameDictionary(a: map<string, bool>, b: map<string, bool>)
    requires forall t :: (t in a <==> t in b) && (IsOn(a, t) <==> IsOn(b, t))
    ensures a == b
  {
    forall t | t in a ensures t in b && a[t] == b[t] {
      assert IsOn(a, t) <==> IsOn(b, t);
    }
    assert a.Keys == b.Keys;
  }

  /** The answer for two lists of files is the pointwise or of the answers for each, as dictionaries. */
  lemma AnswersConcat(table: Table, components: set<string>, a: seq<string>, b: seq<string>, start: map<string, bool>,
                      ra: map<string, bool>, rb: map<string, bool>, rab: map<string, bool>)
    requires Answers(table, components, a, start, ra)
    requires Answers(table, components, b, start, rb)
    requires Answers(table, components, a + b, start, rab)
    ensures rab == Either(ra, rb)
  {
    forall t ensures (t in rab <==> t in ra || t in rb) && (IsOn(rab, t) <==> IsOn(ra, t) || IsOn(rb, t)) {
      TouchedConcat(table, components, a, b, t);
      assert Turned(start, ra, t, Touched(table, components, a, t));
      assert Turned(start, rb, t, Touched(table, components, b, t));
      assert Turned(start, rab, t, Touched(table, components, a + b, t));
    }
    SameDictionary(rab, Either(ra, rb));
  }

  /** More files never switch a topic off and never lose a key. */
  lemma AnswersGrow(table: Table, components: set<string>, a: seq<string>, b: seq<string>, start: map<string, bool>,
                    ra: map<string, bool>, rb: map<string, bool>)
    requires Answers(table, components, a, start, ra) && Answers(table, components, b, start, rb)
    requires forall f :: f in a ==> f in b
    ensures forall t :: (t in ra ==> t in rb) && (IsOn(ra, t) ==> IsOn(rb, t))
  {
    forall t ensures (t in ra ==> t in rb) && (IsOn(ra, t) ==> IsOn(rb, t)) {
      assert Turned(start, ra, t, Touched(table, components, a, t));
      assert Turned(start, rb, t, Touched(table, components, b, t));
      if f :| f in a && Touches(table, components, f, t) {
        assert f in b;
      }
    }
  }

  /** Neither order nor repetition matters: lists of the same files have the same answer. */
  lemma AnswersSameFiles(table: Table, components: set<string>, a: seq<string>, b: seq<string>,
                         start: map<string, bool>, ra: map<string, bool>, rb: map<string, bool>)
    requires Answers(table, components, a, start, ra) && Answers(table, components, b, start, rb)
    requires forall f :: f in a <==> f in b
    ensures ra == rb
  {
    AnswersGrow(table, components, a, b, start, ra, rb);
    AnswersGrow(table, components, b, a, start, rb, ra);
    SameDictionary(ra, rb);
  }

  /** The calls themselves: one on all files against one on each part.  With a deep enough stack
      the one succeeds exactly when both others do. */
  method AskInParts(table: Table, components: set<string>, topics: seq<string>,
                    a: seq<string>, b: seq<string>, frames: nat)
    returns (ra: Option<map<string, bool>>, rb: Option<map<string, bool>>, rab: Option<map<string, bool>>)
    requires forall f :: f in a || f in b ==> (f != "" ==> f[0] != '/')
    ensures frames > |table| ==> (rab.Some? <==> ra.Some? && rb.Some?)
    ensures ra.Some? && rb.Some? && rab.Some? ==> rab.value == Either(ra.value, rb.value)
  {
    assert forall f :: f in a + b <==> f in a || f in b;
    ra := GetAffectedTopics(table, components, topics, a, frames);
    rb := GetAffectedTopics(table, components, topics, b, frames);
    rab := GetAffectedTopics(table, components, topics, a + b, frames);
    if ra.Some? && rb.Some? && rab.Some? {
      AnswersConcat(table, components, a, b, AllOff(topics), ra.value, rb.value, rab.value);
    }
  }
}
