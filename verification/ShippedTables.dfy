/**
 The tables that ci/detect-changes.py ships, and what the walk gives on them.
 */
module ShippedTables {
  import opened Common
  import opened DetectChanges
  import opened PathParts

  const LANGUAGE_TOPICS: seq<string> :=
    ["c_glib", "cpp", "docs", "go", "java", "js", "python", "r", "ruby", "csharp"]

  const ALL_TOPICS: seq<string> := LANGUAGE_TOPICS + ["integration", "dev"]

  const AFFECTED_DEPENDENCIES: Table := map[
    "java" := ["integration", "python"],
    "js" := ["integration"],
    "ci" := ALL_TOPICS,
    "cpp" := ["python", "c_glib", "r", "ruby", "integration"],
    "format" := LANGUAGE_TOPICS,
    "go" := ["integration"],
    ".travis.yml" := ALL_TOPICS,
    "appveyor.yml" := ALL_TOPICS,
    ".github" := ALL_TOPICS,
    "c_glib" := ["ruby"]
  ]

  const COMPONENTS: set<string> :=
    {"cpp", "java", "c_glib", "r", "ruby", "integration", "js", "csharp", "go", "docs", "python", "dev"}

  /** Topics that nothing depends on. */
  const LEAVES: seq<string> := ["ruby", "python", "r", "integration", "docs", "csharp", "dev"]

  lemma LeafHeight(t: string, n: nat)
    requires t in LEAVES
    ensures HeightAtMost(AFFECTED_DEPENDENCIES, t, n)
  {
    assert Dependents(AFFECTED_DEPENDENCIES, t) == [];
  }

  lemma NearLeafHeight(t: string, n: nat)
    requires t in ["c_glib", "go", "java", "js"]
    ensures HeightAtMost(AFFECTED_DEPENDENCIES, t, n + 1)
  {
    assert forall l <- LEAVES :: Dependents(AFFECTED_DEPENDENCIES, l) == [];
    assert forall c <- Dependents(AFFECTED_DEPENDENCIES, t) :: c in LEAVES;
    HeightOverLeaves(AFFECTED_DEPENDENCIES, t, LEAVES, n);
  }

  lemma CppHeight()
    ensures HeightAtMost(AFFECTED_DEPENDENCIES, "cpp", 2)
  {
    forall c <- Dependents(AFFECTED_DEPENDENCIES, "cpp") ensures HeightAtMost(AFFECTED_DEPENDENCIES, c, 1) {
      if c == "c_glib" {
        NearLeafHeight(c, 0);
      } else {
        LeafHeight(c, 1);
      }
    }
    HeightFromDependents(AFFECTED_DEPENDENCIES, "cpp", 1);
  }

  lemma TopicHeight(t: string)
    requires t in ALL_TOPICS
    ensures HeightAtMost(AFFECTED_DEPENDENCIES, t, 2)
  {
    if t in LEAVES {
      LeafHeight(t, 2);
    } else if t == "cpp" {
      CppHeight();
    } else {
      NearLeafHeight(t, 1);
    }
  }

  lemma DependentsAreTopics(p: string)
    ensures forall c <- Dependents(AFFECTED_DEPENDENCIES, p) :: c in ALL_TOPICS
  {
  }

  /** The shipped table has no cycle and no chain of more than three links, so the walk ends
      from every component. */
  lemma ShippedIsAcyclic(p: string)
    ensures HeightAtMost(AFFECTED_DEPENDENCIES, p, 3) && Acyclic(AFFECTED_DEPENDENCIES, p)
  {
    DependentsAreTopics(p);
    forall c <- Dependents(AFFECTED_DEPENDENCIES, p) ensures HeightAtMost(AFFECTED_DEPENDENCIES, c, 2) {
      TopicHeight(c);
    }
    HeightFromDependents(AFFECTED_DEPENDENCIES, p, 2);
    HeightMeansAcyclic(AFFECTED_DEPENDENCIES, p, 3);
  }

  /** Whatever is reached is one of the topics. */
  lemma {:induction false} ReachedAreTopics(p: string, t: string, n: nat)
    requires n > 0 && ReachesIn(AFFECTED_DEPENDENCIES, p, t, n)
    ensures t in ALL_TOPICS
    decreases n
  {
    var c :| c in Dependents(AFFECTED_DEPENDENCIES, p) && ReachesIn(AFFECTED_DEPENDENCIES, c, t, n - 1);
    DependentsAreTopics(p);
    if n > 1 {
      ReachedAreTopics(c, t, n - 1);
    }
  }

  /** With the shipped tables the dictionary keeps exactly the keys ALL_TOPICS. */
  lemma KeysStayTopics(files: seq<string>, affected: map<string, bool>)
    requires Answers(AFFECTED_DEPENDENCIES, COMPONENTS, files, AllOff(ALL_TOPICS), affected)
    ensures forall t :: t in affected <==> t in ALL_TOPICS
  {
    forall t ensures t in affected <==> t in ALL_TOPICS {
      assert Turned(AllOff(ALL_TOPICS), affected, t, Touched(AFFECTED_DEPENDENCIES, COMPONENTS, files, t));
      if Touched(AFFECTED_DEPENDENCIES, COMPONENTS, files, t) {
        var f :| f in files && Touches(AFFECTED_DEPENDENCIES, COMPONENTS, f, t);
        if Reaches(AFFECTED_DEPENDENCIES, First(f), t) {
          var n: nat :| n > 0 && ReachesIn(AFFECTED_DEPENDENCIES, First(f), t, n);
          ReachedAreTopics(First(f), t, n);
        }
      }
    }
  }

  /** Nor does any call of the walk, finished or not, add a key on the way. */
  lemma KeysStayTopicsThroughout(p: string, before: map<string, bool>, after: map<string, bool>)
    requires OnlyReachable(AFFECTED_DEPENDENCIES, before, after, p)
    requires forall t :: t in before <==> t in ALL_TOPICS
    ensures forall t :: t in after <==> t in ALL_TOPICS
  {
    forall t ensures t in after <==> t in ALL_TOPICS {
      assert ChangedOnlyBy(before, after, t, Reaches(AFFECTED_DEPENDENCIES, p, t));
      if Reaches(AFFECTED_DEPENDENCIES, p, t) {
        var n: nat :| n > 0 && ReachesIn(AFFECTED_DEPENDENCIES, p, t, n);
        ReachedAreTopics(p, t, n);
      }
    }
  }

  // ---------------------------------------------------------------- what the tables say

  /** The topics that a change under p switches on by way of the table. */
  function Expected(p: string): seq<string> {
    if p in ["ci", ".travis.yml", "appveyor.yml", ".github"] then
      ["c_glib", "cpp", "docs", "go", "java", "js", "python", "r", "ruby", "csharp", "integration", "dev"]
    else if p == "format" then
      ["c_glib", "cpp", "docs", "go", "java", "js", "python", "r", "ruby", "csharp", "integration"]
    else if p == "cpp" then ["python", "c_glib", "r", "ruby", "integration"]
    else if p == "java" then ["integration", "python"]
    else if p == "js" || p == "go" then ["integration"]
    else if p == "c_glib" then ["ruby"]
    else []
  }

  lemma ReachesUnfold(a: string, b: string)
    ensures Reaches(AFFECTED_DEPENDENCIES, a, b) <==>
      exists c :: c in Dependents(AFFECTED_DEPENDENCIES, a) && (c == b || Reaches(AFFECTED_DEPENDENCIES, c, b))
  {
    if Reaches(AFFECTED_DEPENDENCIES, a, b) {
      var c := ReachesFirst(AFFECTED_DEPENDENCIES, a, b);
    }
    if c :| c in Dependents(AFFECTED_DEPENDENCIES, a) && (c == b || Reaches(AFFECTED_DEPENDENCIES, c, b)) {
      ReachesStep(AFFECTED_DEPENDENCIES, a, c, b);
    }
  }

  lemma LeafReaches(p: string, t: string)
    requires Dependents(AFFECTED_DEPENDENCIES, p) == []
    ensures !Reaches(AFFECTED_DEPENDENCIES, p, t)
  {
    ReachesUnfold(p, t);
  }

  lemma NearLeafReaches(p: string, t: string)
    requires forall c <- Dependents(AFFECTED_DEPENDENCIES, p) :: c in LEAVES
    ensures Reaches(AFFECTED_DEPENDENCIES, p, t) <==> t in Dependents(AFFECTED_DEPENDENCIES, p)
  {
    ReachesUnfold(p, t);
    forall c <- Dependents(AFFECTED_DEPENDENCIES, p) ensures !Reaches(AFFECTED_DEPENDENCIES, c, t) {
      LeafHasNone(c);
      LeafReaches(c, t);
    }
  }

  lemma LeafHasNone(c: string)
    requires c in LEAVES
    ensures Dependents(AFFECTED_DEPENDENCIES, c) == [] && Expected(c) == []
  {
  }

  lemma SmallExpected(p: string, t: string)
    requires p in ["c_glib", "go", "java", "js"]
    ensures Reaches(AFFECTED_DEPENDENCIES, p, t) <==> t in Expected(p)
  {
    NearLeafReaches(p, t);
  }

  lemma CppExpected(t: string)
    ensures Reaches(AFFECTED_DEPENDENCIES, "cpp", t) <==> t in Expected("cpp")
  {
    ReachesUnfold("cpp", t);
    SmallExpected("c_glib", t);
    forall c | c in Dependents(AFFECTED_DEPENDENCIES, "cpp") && c != "c_glib"
      ensures !Reaches(AFFECTED_DEPENDENCIES, c, t)
    {
      LeafHasNone(c);
      LeafReaches(c, t);
    }
  }

  /** What any topic reaches. */
  lemma TopicExpected(p: string, t: string)
    requires p in ALL_TOPICS
    ensures Reaches(AFFECTED_DEPENDENCIES, p, t) <==> t in Expected(p)
    ensures t in Expected(p) ==> t in LANGUAGE_TOPICS || t == "integration"
  {
    if p == "cpp" {
      CppExpected(t);
    } else if p in LEAVES {
      LeafHasNone(p);
      LeafReaches(p, t);
    } else {
      SmallExpected(p, t);
    }
  }

  lemma AllExpected(p: string, t: string)
    requires p in ["ci", ".travis.yml", "appveyor.yml", ".github"]
    ensures Reaches(AFFECTED_DEPENDENCIES, p, t) <==> t in Expected(p)
  {
    ReachesUnfold(p, t);
    assert Dependents(AFFECTED_DEPENDENCIES, p) == ALL_TOPICS == Expected(p);
    forall c | c in ALL_TOPICS && Reaches(AFFECTED_DEPENDENCIES, c, t) ensures t in ALL_TOPICS {
      TopicExpected(c, t);
    }
  }

  lemma FormatExpected(t: string)
    ensures Reaches(AFFECTED_DEPENDENCIES, "format", t) <==> t in Expected("format")
  {
    ReachesUnfold("format", t);
    assert Dependents(AFFECTED_DEPENDENCIES, "format") == LANGUAGE_TOPICS;
    assert Expected("format") == LANGUAGE_TOPICS + ["integration"];
    assert "go" in LANGUAGE_TOPICS;
    SmallExpected("go", t);
    forall c | c in LANGUAGE_TOPICS && Reaches(AFFECTED_DEPENDENCIES, c, t)
      ensures t in LANGUAGE_TOPICS || t == "integration"
    {
      TopicExpected(c, t);
    }
  }

  lemma OtherHasNone(p: string)
    requires p !in ["ci", ".travis.yml", "appveyor.yml", ".github", "format", "cpp", "java", "js", "go", "c_glib"]
    ensures Dependents(AFFECTED_DEPENDENCIES, p) == [] && Expected(p) == []
  {
  }

  /** The shipped table switches on exactly the expected topics, whatever was changed. */
  lemma ShippedReaches(p: string, t: string)
    ensures Reaches(AFFECTED_DEPENDENCIES, p, t) <==> t in Expected(p)
  {
    if p in ["ci", ".travis.yml", "appveyor.yml", ".github"] {
      AllExpected(p, t);
    } else if p == "format" {
      FormatExpected(t);
    } else if p == "cpp" {
      CppExpected(t);
    } else if p in ["c_glib", "go", "java", "js"] {
      SmallExpected(p, t);
    } else {
      OtherHasNone(p);
      LeafReaches(p, t);
    }
  }

  /** The topics that are on after a change under p. */
  function ExpectedTopics(p: string): set<string> {
    (set t | t in Expected(p))
    + if p in ["cpp", "java", "c_glib", "r", "ruby", "integration", "js", "csharp", "go", "docs", "python", "dev"]
      then {p} else {}
  }

  /** The dictionary for one changed file with a directory, against the expected topics. */
  method AskShipped(file: string, slash: nat, frames: nat) returns (r: Option<map<string, bool>>)
    requires 0 < slash < |file| && file[slash] == '/' && '/' !in file[..slash]
    requires frames > |AFFECTED_DEPENDENCIES| && !("README" <= file[AfterLastSlash(file)..])
    ensures r.Some? && r.value.Keys == set t | t in ALL_TOPICS
    ensures forall t <- r.value :: r.value[t] <==> t in ExpectedTopics(file[..slash])
  {
    var p := file[..slash];
    FindSlashIs(file, slash);
    assert file[0] == p[0];
    EndComponents(file);
    ShippedIsAcyclic(p);
    r := GetAffectedTopics(AFFECTED_DEPENDENCIES, COMPONENTS, ALL_TOPICS, [file], frames);
    KeysStayTopics([file], r.value);
    ShippedAnswer(file, p, r.value);
  }

  lemma ShippedAnswer(file: string, p: string, affected: map<string, bool>)
    requires file != "" && !IsReadme(file) && First(file) == p
    requires Answers(AFFECTED_DEPENDENCIES, COMPONENTS, [file], AllOff(ALL_TOPICS), affected)
    ensures forall t <- affected :: affected[t] <==> t in ExpectedTopics(p)
  {
    forall t <- affected ensures affected[t] <==> t in ExpectedTopics(p) {
      assert Turned(AllOff(ALL_TOPICS), affected, t, Touched(AFFECTED_DEPENDENCIES, COMPONENTS, [file], t));
      TouchedOne(file, t);
      ShippedReaches(p, t);
      ShippedComponents(p);
    }
  }

  /** Any file under cpp, as in the source's own test. */
  method AskCpp(file: string, frames: nat) returns (r: Option<map<string, bool>>)
    requires frames > |AFFECTED_DEPENDENCIES|
    requires "cpp/" <= file && !("README" <= file[AfterLastSlash(file)..])
    ensures r.Some? && r.value.Keys == set t | t in ALL_TOPICS
    ensures forall t <- r.value :: r.value[t] <==> t in {"cpp", "python", "c_glib", "r", "ruby", "integration"}
  {
    UnderCpp(file);
    r := AskShipped(file, 3, frames);
    CppTopics();
  }

  lemma UnderCpp(file: string)
    requires "cpp/" <= file
    ensures file[..3] == "cpp" && file[3] == '/' && '/' !in file[..3]
  {
    assert file[..4] == "cpp/";
    assert file[..3] == file[..4][..3] == "cpp";
  }

  lemma CppTopics()
    ensures ExpectedTopics("cpp") == {"cpp", "python", "c_glib", "r", "ruby", "integration"}
  {
  }

  lemma TouchedOne(file: string, t: string)
    ensures Touched(AFFECTED_DEPENDENCIES, COMPONENTS, [file], t)
      <==> Touches(AFFECTED_DEPENDENCIES, COMPONENTS, file, t)
  {
    assert file in [file];
  }

  lemma ShippedComponents(p: string)
    ensures p in COMPONENTS <==>
      p in ["cpp", "java", "c_glib", "r", "ruby", "integration", "js", "csharp", "go", "docs", "python", "dev"]
  {
  }

  const SELF_LOOP: Table := map["a" := ["a"]]

  lemma SelfLoopIsCyclic()
    ensures !Acyclic(SELF_LOOP, "a")
  {
    assert "a" in Dependents(SELF_LOOP, "a");
    ReachesStep(SELF_LOOP, "a", "a", "a");
  }

  /** On a table with a cycle the walk fails, however deep the stack. */
  method WalkSelfLoop(frames: nat) returns (ok: bool)
    ensures !ok
  {
    var walk := new Walk(SELF_LOOP, map[]);
    ok := walk.AffectDependencies("a", frames);
    SelfLoopIsCyclic();
    FiniteIffAcyclic(SELF_LOOP, "a");
  }
}
