/**
 The loop at the top of get_affected_topics that takes a path apart with os.path.split,
 from the back, and then reverses the parts.  Components takes a path apart from the
 front; the two agree on every path on which the loop ends.
 */
module PathParts {
  import opened Common

  function FindSlash(p: string): (i: nat)
    ensures i <= |p| && '/' !in p[..i] && (i < |p| ==> p[i] == '/')
  {
    if p == "" || p[0] == '/' then 0
    else
      var i := FindSlash(p[1..]);
      assert p[..i + 1] == [p[0]] + p[1..][..i];
      i + 1
  }

  /** The part of p after the slashes it starts with. */
  function SkipSlashes(p: string): (r: string)
    ensures |r| <= |p| && (p != "" && p[0] == '/' ==> |r| < |p|)
    ensures r == "" || r[0] != '/'
  {
    if p != "" && p[0] == '/' then SkipSlashes(p[1..]) else p
  }

  /** The parts of p between runs of slashes, first to last. */
  function Components(p: string): (r: seq<string>)
    ensures |r| > 0
    decreases |p|
  {
    var i := FindSlash(p);
    if i == |p| then [p] else [p[..i]] + Components(SkipSlashes(p[i..]))
  }

  /** p.rfind('/') + 1. */
  function AfterLastSlash(p: string): (i: nat)
    ensures i <= |p| && '/' !in p[i..] && (i > 0 ==> p[i - 1] == '/')
  {
    if p == "" then 0
    else if p[|p| - 1] == '/' then |p|
    else
      var i := AfterLastSlash(p[..|p| - 1]);
      assert p[i..] == p[..|p| - 1][i..] + [p[|p| - 1]];
      i
  }

  predicate AllSlashes(p: string) {
    forall i | 0 <= i < |p| :: p[i] == '/'
  }

  /** p.rstrip('/'). */
  function StripSlashes(p: string): (r: string)
    ensures r <= p && AllSlashes(p[|r|..])
    ensures r != "" ==> r[|r| - 1] != '/'
  {
    if p != "" && p[|p| - 1] == '/' then
      var r := StripSlashes(p[..|p| - 1]);
      assert p[|r|..] == p[..|p| - 1][|r|..] + [p[|p| - 1]];
      r
    else p
  }

  /** os.path.split, as posixpath defines it. */
  function Split(p: string): (string, string) {
    var i := AfterLastSlash(p);
    var head := p[..i];
    (if head != "" && !AllSlashes(head) then StripSlashes(head) else head, p[i..])
  }

  /** Taking the last part off, from the back, agrees with Components, from the front. */
  lemma {:induction false} LastComponent(h: string, run: string, t: string)
    requires h != "" && h[0] != '/' && h[|h| - 1] != '/'
    requires run != "" && AllSlashes(run) && '/' !in t
    ensures Components(h + run + t) == Components(h) + [t]
    decreases |h|
  {
    var p := h + run + t;
    var i := FindSlash(h);
    assert (run + t)[0] == run[0];
    FindSlashOfPrefix(h, run + t);
    assert p == h + (run + t);
    if i == |h| {
      assert FindSlash(p) == i && p[i..] == run + t && p[..i] == h;
      SkipRun(run, t);
      assert FindSlash(t) == |t| by { NoSlash(t); }
      assert Components(t) == [t];
    } else {
      var rest := SkipSlashes(h[i..]);
      assert p[i..] == h[i..] + (run + t) && p[..i] == h[..i];
      SkipInside(h[i..], run + t);
      assert rest + (run + t) == rest + run + t;
      LastComponent(rest, run, t);
      assert Components(p) == [h[..i]] + (Components(rest) + [t]);
    }
  }

  lemma {:induction false} FindSlashOfPrefix(h: string, q: string)
    requires q != "" && q[0] == '/'
    ensures FindSlash(h + q) == FindSlash(h)
  {
    if h == "" {
      assert h + q == q;
    } else if h[0] != '/' {
      assert (h + q)[1..] == h[1..] + q;
      FindSlashOfPrefix(h[1..], q);
    }
  }

  lemma {:induction false} NoSlash(t: string)
    requires '/' !in t
    ensures FindSlash(t) == |t|
  {
    if t != "" {
      NoSlash(t[1..]);
    }
  }

  lemma {:induction false} SkipRun(run: string, t: string)
    requires AllSlashes(run) && '/' !in t
    ensures SkipSlashes(run + t) == t
  {
    if run == "" {
      assert run + t == t;
    } else {
      assert (run + t)[0] == run[0] && (run + t)[1..] == run[1..] + t;
      assert forall i | 0 <= i < |run| - 1 :: run[1..][i] == run[i + 1];
      SkipRun(run[1..], t);
    }
  }

  /** A string that does not end in a slash has something after its leading slashes. */
  lemma {:induction false} SkipInside(h: string, q: string)
    requires h != "" && h[|h| - 1] != '/'
    ensures SkipSlashes(h + q) == SkipSlashes(h) + q
    ensures SkipSlashes(h) != "" && SkipSlashes(h)[|SkipSlashes(h)| - 1] != '/'
  {
    if h[0] == '/' {
      assert (h + q)[1..] == h[1..] + q;
      SkipInside(h[1..], q);
    }
  }

  /** What os.path.split does to a path that is not absolute. */
  lemma SplitShape(p: string) returns (run: string)
    requires p != "" && p[0] != '/'
    ensures var (head, tail) := Split(p);
      && '/' !in tail && p == head + run + tail && AllSlashes(run)
      && (run == "" ==> head == "")
      && (run != "" ==> head != "" && head[0] != '/' && head[|head| - 1] != '/')
  {
    var i := AfterLastSlash(p);
    var q := p[..i];
    assert p == q + p[i..];
    if i == 0 {
      run := "";
    } else {
      assert q[0] == p[0] && q[i - 1] == p[i - 1];
      LastSlashStripped(q);
      run := q[|StripSlashes(q)|..];
      assert q == StripSlashes(q) + run;
    }
  }

  lemma LastSlashStripped(q: string)
    requires q != "" && q[0] != '/' && q[|q| - 1] == '/'
    ensures StripSlashes(q) != "" && |StripSlashes(q)| < |q| && StripSlashes(q)[0] == q[0]
  {
    var r := StripSlashes(q);
    assert q[0..] == q && q[..|q|] == q;
  }

  /** The parts of a path; the loop makes none for an empty one. */
  function Parts(p: string): seq<string> {
    if p == "" then [] else Components(p)
  }

  /** One turn of the loop takes the last component off a path that is not absolute. */
  lemma SplitTakesLast(p: string)
    requires p != "" && p[0] != '/'
    ensures var (head, tail) := Split(p);
      && |head| < |p| && (head != "" ==> head[0] != '/')
      && Parts(p) == Parts(head) + [tail]
  {
    var run := SplitShape(p);
    var (head, tail) := Split(p);
    if run == "" {
      assert p == tail;
      NoSlash(p);
    } else {
      LastComponent(head, run, tail);
    }
  }

  lemma SplitStep(path: string, head: string, reversed: seq<string>)
    requires head != "" && head[0] != '/'
    requires Parts(path) == Parts(head) + Reversed(reversed)
    ensures |Split(head).0| < |head| && (Split(head).0 != "" ==> Split(head).0[0] != '/')
    ensures Parts(path) == Parts(Split(head).0) + Reversed(reversed + [Split(head).1])
  {
    var (h, tail) := Split(head);
    SplitTakesLast(head);
    ReverseSnoc(reversed, tail);
    Regroup(Parts(h), [tail], Reversed(reversed));
  }

  method SplitPath(path: string) returns (parts: seq<string>)
    requires path != "" ==> path[0] != '/'
    ensures parts == Parts(path)
  {
    var reversed: seq<string> := [];
    var head := path;
    while head != ""
      invariant head != "" ==> head[0] != '/'
      invariant Parts(path) == Parts(head) + Reversed(reversed)
      decreases |head|
    {
      SplitStep(path, head, reversed);
      var split := Split(head);
      head := split.0;
      reversed := reversed + [split.1];
    }
    parts := Reversed(reversed);
  }

  lemma {:induction false} ReverseSnoc(s: seq<string>, x: string)
    ensures Reversed(s + [x]) == [x] + Reversed(s)
  {
    if s == [] {
      assert [] + [x] == [x];
    } else {
      assert (s + [x])[1..] == s[1..] + [x];
      ReverseSnoc(s[1..], x);
    }
  }

  /** What is left of a path after n turns of the loop; an empty path stops it. */
  function HeadAfter(p: string, n: nat): string
    decreases n
  {
    if n == 0 || p == "" then p else HeadAfter(Split(p).0, n - 1)
  }

  lemma AbsoluteHead(p: string)
    requires p != "" && p[0] == '/'
    ensures Split(p).0 != "" && Split(p).0[0] == '/'
  {
    var i := AfterLastSlash(p);
    assert p[0..] == p && p[0] in p;
    var head := p[..i];
    assert head[0..] == head && head[0] == '/';
  }

  /** On an absolute path the loop never ends: after any number of turns an absolute path is left. */
  lemma {:induction false} AbsoluteNeverEnds(p: string, n: nat)
    requires p != "" && p[0] == '/'
    ensures HeadAfter(p, n) != "" && HeadAfter(p, n)[0] == '/'
    decreases n
  {
    if n > 0 {
      AbsoluteHead(p);
      AbsoluteNeverEnds(Split(p).0, n - 1);
    }
  }

  /** On every other path it ends after as many turns as there are parts. */
  lemma {:induction false} RelativeEnds(p: string)
    requires p != "" ==> p[0] != '/'
    ensures HeadAfter(p, |Parts(p)|) == ""
    ensures forall n | 0 <= n < |Parts(p)| :: HeadAfter(p, n) != ""
    decreases |p|
  {
    if p != "" {
      var head := Split(p).0;
      SplitTakesLast(p);
      RelativeEnds(head);
      forall n | 0 <= n < |Parts(p)| ensures HeadAfter(p, n) != "" {
        if n > 0 {
          assert HeadAfter(head, n - 1) != "";
        }
      }
    }
  }

  function Join(parts: seq<string>): string
    requires |parts| > 0
  {
    if |parts| == 1 then parts[0] else parts[0] + "/" + Join(parts[1..])
  }

  predicate DoubleSlash(p: string) {
    exists i | 0 <= i < |p| - 1 :: p[i] == '/' && p[i + 1] == '/'
  }

  /** Without empty components the parts joined by slashes are the path again. */
  lemma {:induction false} JoinComponents(p: string)
    requires !DoubleSlash(p)
    ensures Join(Components(p)) == p
    decreases |p|
  {
    var i := FindSlash(p);
    if i < |p| {
      RestAfterSlash(p, i);
      JoinComponents(p[i + 1..]);
    }
  }

  lemma RestAfterSlash(p: string, i: nat)
    requires i < |p| && p[i] == '/' && !DoubleSlash(p)
    ensures SkipSlashes(p[i..]) == p[i + 1..] && !DoubleSlash(p[i + 1..])
    ensures p == p[..i] + "/" + p[i + 1..]
  {
    var rest := p[i + 1..];
    assert p[i..][1..] == rest;
    assert rest != "" ==> rest[0] == p[i + 1];
    forall k | 0 <= k < |rest| - 1 ensures !(rest[k] == '/' && rest[k + 1] == '/') {
      assert rest[k] == p[i + 1 + k] && rest[k + 1] == p[i + 1 + k + 1];
    }
  }

  /** No part has a slash in it, so the parts are determined by the path they join to. */
  lemma {:induction false} PartsHaveNoSlash(p: string, i: nat)
    requires i < |Components(p)|
    ensures '/' !in Components(p)[i]
    decreases |p|
  {
    var n := FindSlash(p);
    if n == |p| {
      assert p[..n] == p;
    } else if i > 0 {
      PartsHaveNoSlash(SkipSlashes(p[n..]), i - 1);
    }
  }

  /** The first slash is where it is. */
  lemma FindSlashIs(p: string, i: nat)
    requires i < |p| && p[i] == '/' && '/' !in p[..i]
    ensures FindSlash(p) == i
  {
    var n := FindSlash(p);
    forall k | 0 <= k < i ensures p[k] != '/' { assert p[k] == p[..i][k]; }
    forall k | 0 <= k < n ensures p[k] != '/' { assert p[k] == p[..n][k]; }
  }

  lemma AfterLastSlashIs(p: string, i: nat)
    requires 0 < i <= |p| && p[i - 1] == '/' && '/' !in p[i..]
    ensures AfterLastSlash(p) == i
  {
    var n := AfterLastSlash(p);
    forall k | i <= k < |p| ensures p[k] != '/' { assert p[k] == p[i..][k - i]; }
    forall k | n <= k < |p| ensures p[k] != '/' { assert p[k] == p[n..][k - n]; }
  }

  /** The first part ends before the first slash; the last starts after the last slash. */
  lemma EndComponents(p: string)
    requires p != "" && p[0] != '/'
    ensures Components(p)[0] == p[..FindSlash(p)]
    ensures Components(p)[|Components(p)| - 1] == p[AfterLastSlash(p)..]
  {
    SplitTakesLast(p);
  }
}
