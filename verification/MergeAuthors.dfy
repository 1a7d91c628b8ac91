/**
 dev/merge_arrow_pr.py: who is credited for a merged pull request, and in what order.
 */
module MergeAuthors {
  import opened Common

  function Count(commits: seq<string>, author: string): nat {
    multiset(commits)[author]
  }

  ghost predicate NonIncreasing(commits: seq<string>, authors: seq<string>) {
    forall i, j | 0 <= i < j < |authors| :: Count(commits, authors[i]) >= Count(commits, authors[j])
  }

  /** What sorted(set(commit_authors), key=commit_authors.count, reverse=True) may return. */
  ghost predicate IsRanking(commits: seq<string>, authors: seq<string>) {
    && NoDuplicates(authors)
    && (forall a :: a in authors <==> a in commits)
    && NonIncreasing(commits, authors)
  }

  // ---------------------------------------------------------------- the prompt

  /** re.match of `(.*) <(.*)>`: the pattern need not reach the end of the answer. */
  predicate LooksLikeAuthor(s: string) {
    exists i, j | 0 <= i && i + 2 <= j < |s| :: MatchBetween(s, i, j)
  }

  predicate MatchBetween(s: string, i: nat, j: nat)
    requires i + 2 <= j < |s|
  {
    s[i] == ' ' && s[i + 1] == '<' && s[j] == '>' && '\n' !in s[..j]
  }

  predicate Accepted(answer: string) {
    answer == "" || LooksLikeAuthor(answer)
  }

  function Others(authors: seq<string>, primary: string): (r: seq<string>)
    ensures forall a :: a in r <==> a in authors && a != primary
  {
    if authors == [] then []
    else (if authors[0] != primary then [authors[0]] else []) + Others(authors[1..], primary)
  }

  /** The author a prompt answer stands for: an empty one keeps the first of the list. */
  function Primary(authors: seq<string>, answer: string): string
    requires authors != []
  {
    if answer == "" then authors[0] else answer
  }

  function Credited(authors: seq<string>, answer: string): (r: seq<string>)
    requires authors != []
    ensures r != [] && r[0] == if answer == "" then authors[0] else answer
  {
    if answer == "" then authors else [answer] + Others(authors, answer)
  }

  /** get_primary_author: ask until an answer is accepted.  None if the answers run out. */
  method GetPrimaryAuthor(answers: seq<string>, authors: seq<string>)
    returns (r: Option<(string, seq<string>)>)
    requires authors != []
    ensures r.None? <==> forall k | 0 <= k < |answers| :: !Accepted(answers[k])
    ensures forall k | 0 <= k < |answers| && FirstAccepted(answers, k) ::
      r == Some((Primary(authors, answers[k]), Credited(authors, answers[k])))
    ensures r.Some? ==> r.value.1 != [] && r.value.0 == r.value.1[0]
  {
    var k := 0;
    while k < |answers|
      invariant 0 <= k <= |answers|
      invariant forall m | 0 <= m < k :: !Accepted(answers[m])
    {
      var primary := answers[k];
      if primary == "" {
        return Some((authors[0], authors));
      }
      if LooksLikeAuthor(primary) {
        var rest := WithoutPrimary(authors, primary);
        return Some((primary, [primary] + rest));
      }
      k := k + 1;
    }
    return None;
  }

  /** The list comprehension that removes the primary author. */
  method WithoutPrimary(authors: seq<string>, primary: string) returns (rest: seq<string>)
    ensures rest == Others(authors, primary)
  {
    rest := [];
    var i := 0;
    assert authors[0..] == authors;
    while i < |authors|
      invariant 0 <= i <= |authors|
      invariant Others(authors, primary) == rest + Others(authors[i..], primary)
    {
      ghost var here, tail := authors[i..], Others(authors[i + 1..], primary);
      assert here[0] == authors[i] && here[1..] == authors[i + 1..];
      if authors[i] != primary {
        assert Others(here, primary) == [authors[i]] + tail;
        Regroup(rest, [authors[i]], tail);
        rest := rest + [authors[i]];
      } else {
        assert Others(here, primary) == [] + tail == tail;
      }
      i := i + 1;
    }
    assert authors[i..] == [];
  }

  /** An answer is taken for an author exactly when it reads `name <email>`, possibly with more text
      after it. */
  lemma AuthorShape(answer: string)
    ensures LooksLikeAuthor(answer) <==>
      exists name, email, rest :: IsAuthor(answer, name, email, rest)
  {
    if LooksLikeAuthor(answer) {
      var i, j :| 0 <= i && i + 2 <= j < |answer| && MatchBetween(answer, i, j);
      var name, email, rest := answer[..i], answer[i + 2..j], answer[j + 1..];
      assert answer == name + " <" + email + ">" + rest;
      forall c | c in name || c in email ensures c != '\n' {
        assert c in answer[..j];
      }
      assert IsAuthor(answer, name, email, rest);
    }
    if name, email, rest :| IsAuthor(answer, name, email, rest) {
      var i, j := |name|, |name| + 2 + |email|;
      assert answer[..j] == name + " <" + email;
      assert answer[i] == ' ' && answer[i + 1] == '<' && answer[j] == '>';
      assert MatchBetween(answer, i, j);
    }
  }

  ghost predicate IsAuthor(answer: string, name: string, email: string, rest: string) {
    answer == name + " <" + email + ">" + rest && '\n' !in name && '\n' !in email
  }

  lemma {:induction false} OthersAbsent(authors: seq<string>, primary: string)
    requires primary !in authors
    ensures Others(authors, primary) == authors
  {
    if authors != [] {
      OthersAbsent(authors[1..], primary);
    }
  }

  /** Taking out the primary author closes the gap and leaves the others as they were. */
  lemma {:induction false} OthersCloseGap(before: seq<string>, primary: string, after: seq<string>)
    requires primary !in before && primary !in after
    ensures Others(before + [primary] + after, primary) == before + after
  {
    var authors := before + [primary] + after;
    if before == [] {
      assert authors[1..] == after;
      OthersAbsent(after, primary);
    } else {
      assert authors[0] == before[0] && authors[1..] == before[1..] + [primary] + after;
      OthersCloseGap(before[1..], primary, after);
    }
  }

  // ---------------------------------------------------------------- the credit lines

  datatype Line = AuthoredBy(author: string) | LeadAuthoredBy(author: string) | CoAuthoredBy(author: string)

  /** The author handling of merge, up to the sign-off line: the author for the commit, and
      the lines of the message. */
  method CreditLines(authors: seq<string>, answers: seq<string>) returns (r: Option<(string, seq<Line>)>)
    requires authors != []
    ensures r.None? <==> |authors| > 1 && forall k | 0 <= k < |answers| :: !Accepted(answers[k])
    ensures r.Some? ==> exists credited ::
      && IsCredit(authors, answers, credited) && credited != []
      && r.value.0 == credited[0] && r.value.1 == Lines(credited)
    ensures |authors| == 1 ==> r == Some((authors[0], Lines(authors)))
    ensures |authors| > 1 ==> forall k | 0 <= k < |answers| && FirstAccepted(answers, k) ::
      r == Some((Primary(authors, answers[k]), Lines(Credited(authors, answers[k]))))
  {
    var credited := authors;
    var primary := authors[0];
    if |authors| > 1 {
      var p := GetPrimaryAuthor(answers, authors);
      if p.None? {
        return None;
      }
      primary, credited := p.value.0, p.value.1;
      var k := AcceptedFirst(answers);
    }
    assert IsCredit(authors, answers, credited);
    var lines := WriteLines(credited);
    return Some((primary, lines));
  }

  /** If any answer is accepted, one is the first. */
  lemma {:induction false} AcceptedFirst(answers: seq<string>) returns (k: nat)
    requires exists m | 0 <= m < |answers| :: Accepted(answers[m])
    ensures k < |answers| && FirstAccepted(answers, k)
  {
    k := 0;
    while !Accepted(answers[k])
      invariant k < |answers| && forall m | 0 <= m < k :: !Accepted(answers[m])
      decreases |answers| - k
    {
      k := k + 1;
    }
  }

  /** The lines of the message: the first author is taken off the list, and the others follow. */
  method WriteLines(credited: seq<string>) returns (lines: seq<Line>)
    requires credited != []
    ensures lines == Lines(credited)
  {
    lines := [if |credited| == 1 then AuthoredBy(credited[0]) else LeadAuthoredBy(credited[0])];
    var rest := credited[1..];
    var i := 0;
    while i < |rest|
      invariant 0 <= i <= |rest|
      invariant lines == Lines(credited)[..i + 1]
    {
      lines := lines + [CoAuthoredBy(rest[i])];
      i := i + 1;
    }
  }

  function Lines(credited: seq<string>): seq<Line>
    requires credited != []
  {
    seq(|credited|, i requires 0 <= i < |credited| =>
      if |credited| == 1 then AuthoredBy(credited[i])
      else if i == 0 then LeadAuthoredBy(credited[i])
      else CoAuthoredBy(credited[i]))
  }

  /** Answer k ends the prompt. */
  predicate FirstAccepted(answers: seq<string>, k: nat)
    requires k < |answers|
  {
    Accepted(answers[k]) && forall m | 0 <= m < k :: !Accepted(answers[m])
  }

  /** Who leads the credited list: the author typed at the prompt, or else the one with most commits. */
  lemma PrimaryLeads(authors: seq<string>, answers: seq<string>, credited: seq<string>, k: nat)
    requires |authors| > 1 && IsCredit(authors, answers, credited)
    requires k < |answers| && FirstAccepted(answers, k)
    ensures credited != [] && credited[0] == if answers[k] == "" then authors[0] else answers[k]
    ensures answers[k] == "" ==> credited == authors
    ensures answers[k] != "" ==> credited[1..] == Others(authors, answers[k])
  {
    var m :| 0 <= m < |answers| && Accepted(answers[m]) && (forall x | 0 <= x < m :: !Accepted(answers[x]))
             && credited == Credited(authors, answers[m]);
    assert m == k;
  }

  /** The list merge ends up with, for these prompt answers. */
  ghost predicate IsCredit(authors: seq<string>, answers: seq<string>, credited: seq<string>)
    requires authors != []
  {
    if |authors| == 1 then credited == authors
    else exists k | 0 <= k < |answers| ::
      && Accepted(answers[k]) && (forall m | 0 <= m < k :: !Accepted(answers[m]))
      && credited == Credited(authors, answers[k])
  }

  lemma {:induction false} OthersKeepOrder(commits: seq<string>, authors: seq<string>, primary: string)
    requires NoDuplicates(authors) && NonIncreasing(commits, authors)
    ensures NoDuplicates(Others(authors, primary)) && NonIncreasing(commits, Others(authors, primary))
  {
    if authors == [] {
    } else {
      TailKeepsOrder(commits, authors);
      OthersKeepOrder(commits, authors[1..], primary);
      if authors[0] != primary {
        ConsKeepsOrder(commits, authors[0], Others(authors[1..], primary));
      }
    }
  }

  lemma TailKeepsOrder(commits: seq<string>, authors: seq<string>)
    requires authors != [] && NoDuplicates(authors) && NonIncreasing(commits, authors)
    ensures NoDuplicates(authors[1..]) && NonIncreasing(commits, authors[1..])
    ensures forall a <- authors[1..] :: a != authors[0] && Count(commits, authors[0]) >= Count(commits, a)
  {
    var tail := authors[1..];
    assert forall i | 0 <= i < |tail| :: tail[i] == authors[i + 1];
  }

  lemma ConsKeepsOrder(commits: seq<string>, first: string, rest: seq<string>)
    requires NoDuplicates(rest) && NonIncreasing(commits, rest)
    requires forall a <- rest :: a != first && Count(commits, first) >= Count(commits, a)
    ensures NoDuplicates([first] + rest) && NonIncreasing(commits, [first] + rest)
  {
    assert forall i | 0 <= i < |rest| :: rest[i] in rest;
  }

  /** Nobody is credited twice; the credited are the commit authors and the primary author; the
      primary author comes first, and the others by falling number of commits. */
  lemma CreditIsFair(commits: seq<string>, authors: seq<string>, answers: seq<string>, credited: seq<string>)
    requires commits != [] && IsRanking(commits, authors) && authors != [] && IsCredit(authors, answers, credited)
    ensures credited != [] && NoDuplicates(credited)
    ensures forall a :: a in credited <==> a in commits || a == credited[0]
    ensures NonIncreasing(commits, credited[1..])
    ensures FewerLater(commits, credited)
    ensures |credited| == 1 ==> forall a <- commits :: a == credited[0]
  {
    assert authors[0] in authors;
    if |authors| > 1 {
      var k :| 0 <= k < |answers| && Accepted(answers[k]) && credited == Credited(authors, answers[k]);
      var answer := answers[k];
      assert credited == Credited(authors, answer);
      if answer == "" {
        RankingIsFair(commits, authors);
      } else {
        TypedCreditIsFair(commits, authors, answer);
      }
    } else {
      RankingIsFair(commits, authors);
    }
    TailFewerLater(commits, credited);
  }

  /** After the first author nobody comes before one with more commits. */
  ghost predicate FewerLater(commits: seq<string>, credited: seq<string>) {
    forall i, j | 0 < i < j < |credited| :: multiset(commits)[credited[i]] >= multiset(commits)[credited[j]]
  }

  lemma TailFewerLater(commits: seq<string>, credited: seq<string>)
    requires credited != [] && NonIncreasing(commits, credited[1..])
    ensures FewerLater(commits, credited)
  {
    var rest := credited[1..];
    forall i, j | 0 < i < j < |credited|
      ensures multiset(commits)[credited[i]] >= multiset(commits)[credited[j]]
    {
      assert credited[i] == rest[i - 1] && credited[j] == rest[j - 1];
    }
  }

  lemma RankingIsFair(commits: seq<string>, authors: seq<string>)
    requires IsRanking(commits, authors) && authors != []
    ensures authors[0] in authors && NonIncreasing(commits, authors[1..])
    ensures |authors| == 1 ==> forall a <- commits :: a == authors[0]
  {
    var rest := authors[1..];
    assert forall i | 0 <= i < |rest| :: rest[i] == authors[i + 1];
  }

  /** The case of an author typed at the prompt. */
  lemma TypedCreditIsFair(commits: seq<string>, authors: seq<string>, answer: string)
    requires IsRanking(commits, authors) && |authors| > 1
    ensures var credited := [answer] + Others(authors, answer);
      && NoDuplicates(credited) && |credited| > 1
      && (forall a :: a in credited <==> a in commits || a == answer)
      && NonIncreasing(commits, credited[1..])
  {
    var rest := Others(authors, answer);
    OthersKeepOrder(commits, authors, answer);
    assert ([answer] + rest)[1..] == rest;
    assert answer !in rest;
    assert authors[0] in authors && authors[1] in authors;
    assert authors[0] in rest || authors[1] in rest;
  }

  /** The message says Authored-by exactly when all commits are by one author, who is then the one
      credited; otherwise it names a lead author and at least one co-author. */
  lemma TagTellsCommits(commits: seq<string>, authors: seq<string>, answers: seq<string>, credited: seq<string>)
    requires commits != [] && IsRanking(commits, authors) && authors != [] && IsCredit(authors, answers, credited)
    ensures credited != []
    ensures Lines(credited)[0].AuthoredBy? <==> forall a <- commits :: a == commits[0]
    ensures Lines(credited)[0].AuthoredBy? ==> Lines(credited) == [AuthoredBy(commits[0])]
    ensures !Lines(credited)[0].AuthoredBy? ==> |credited| > 1 && Lines(credited)[0] == LeadAuthoredBy(credited[0])
    ensures forall i | 0 < i < |credited| :: Lines(credited)[i] == CoAuthoredBy(credited[i])
  {
    CreditIsFair(commits, authors, answers, credited);
    assert commits[0] in commits;
    if forall a <- commits :: a == commits[0] {
      SoleAuthor(commits, authors);
    }
  }

  /** If all commits are by one author, the ranking has one entry, and there is no prompt. */
  lemma SoleAuthor(commits: seq<string>, authors: seq<string>)
    requires commits != [] && IsRanking(commits, authors) && forall a <- commits :: a == commits[0]
    ensures authors == [commits[0]]
  {
    assert commits[0] in authors;
    forall i | 0 <= i < |authors| ensures authors[i] == commits[0] {
      assert authors[i] in authors;
    }
    var last := |authors| - 1;
    assert authors[0] == authors[last];
  }
}
