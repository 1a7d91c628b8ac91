/**
 dev/merge_arrow_pr.py: strip_ci_directives removes every match of \[[^\]]*\], scanning
 from the left.
 */
module MergeDirectives {
  import opened Common

  /** The place of the first ']' from k on, or the length. */
  function NextClose(s: string, k: nat): (r: nat)
    requires k <= |s|
    ensures k <= r <= |s| && (forall m | k <= m < r :: s[m] != ']') && (r < |s| ==> s[r] == ']')
    decreases |s| - k
  {
    if k == |s| || s[k] == ']' then k else NextClose(s, k + 1)
  }

  /** A match starts at k. */
  predicate MatchAt(s: string, k: nat)
    requires k < |s|
  {
    s[k] == '[' && NextClose(s, k) < |s|
  }

  /** What re.sub leaves of the text from k on. */
  function StripAt(s: string, k: nat): string
    requires k <= |s|
    decreases |s| - k
  {
    if k == |s| then ""
    else if MatchAt(s, k) then StripAt(s, NextClose(s, k) + 1)
    else [s[k]] + StripAt(s, k + 1)
  }

  function Strip(s: string): string {
    StripAt(s, 0)
  }

  /** A character that starts no match stays. */
  lemma StripKeeps(s: string, k: nat)
    requires k < |s| && !MatchAt(s, k)
    ensures StripAt(s, k) == [s[k]] + StripAt(s, k + 1)
  {
  }

  /** A match is left out. */
  lemma StripDrops(s: string, k: nat, next: nat)
    requires k < |s| && MatchAt(s, k) && next == NextClose(s, k) + 1
    ensures StripAt(s, k) == StripAt(s, next)
  {
  }

  // ---------------------------------------------------------------- which characters stay

  ghost predicate ClosesFrom(s: string, k: nat) {
    exists j: nat :: k <= j < |s| && s[j] == ']'
  }

  /** A bracket opened at i is still open at k. */
  ghost predicate OpenAt(s: string, i: nat, k: nat) {
    i < k <= |s| && s[i] == '[' && forall m | i <= m < k :: s[m] != ']'
  }

  /** At position k a bracket opened before k is still open, and it will be closed. */
  ghost predicate Inside(s: string, k: nat) {
    ClosesFrom(s, k) && exists i: nat :: OpenAt(s, i, k)
  }

  /** Character k stays unless it is between a '[' and the first ']' after it, or is one of the two. */
  ghost predicate Kept(s: string, k: nat)
    requires k < |s|
  {
    !Inside(s, k) && !(s[k] == '[' && ClosesFrom(s, k))
  }

  ghost function Select(s: string, k: nat): string
    requires k <= |s|
    decreases |s| - k
  {
    if k == |s| then "" else (if Kept(s, k) then [s[k]] else []) + Select(s, k + 1)
  }

  lemma InsideNext(s: string, k: nat)
    requires k < |s| && Kept(s, k)
    ensures !Inside(s, k + 1)
  {
    if ClosesFrom(s, k + 1) {
      assert ClosesFrom(s, k);
      var next := k + 1;
      forall i: nat ensures !OpenAt(s, i, next) {
        assert i < k ==> !OpenAt(s, i, k);
      }
    }
  }

  lemma NotKept(s: string, from: nat, k: nat, close: nat)
    requires from <= k <= close < |s| && s[from] == '[' && s[close] == ']'
    requires forall m | from <= m < close :: s[m] != ']'
    ensures !Kept(s, k)
  {
    assert ClosesFrom(s, k);
    assert from < k ==> OpenAt(s, from, k);
  }

  /** From an opening bracket up to its closing one nothing is selected. */
  lemma {:induction false} SelectSkips(s: string, from: nat, k: nat, close: nat)
    requires from <= k <= close < |s| && s[from] == '[' && s[close] == ']'
    requires forall m | from <= m < close :: s[m] != ']'
    ensures Select(s, k) == Select(s, close + 1)
    decreases close - k
  {
    NotKept(s, from, k, close);
    if k < close {
      SelectSkips(s, from, k + 1, close);
    }
  }

  lemma {:induction false} StripFrom(s: string, k: nat)
    requires k <= |s| && !Inside(s, k)
    ensures StripAt(s, k) == Select(s, k)
    decreases |s| - k
  {
    if k == |s| {
    } else if MatchAt(s, k) {
      var close := NextClose(s, k);
      SelectSkips(s, k, k, close);
      assert !Inside(s, close + 1);
      StripFrom(s, close + 1);
    } else {
      assert Kept(s, k);
      InsideNext(s, k);
      StripFrom(s, k + 1);
    }
  }

  /** What the left-to-right scan leaves is exactly the characters outside closed brackets,
      in their order. */
  lemma StripSelects(s: string)
    ensures Strip(s) == Select(s, 0)
  {
    StripFrom(s, 0);
  }

  // ---------------------------------------------------------------- laws

  /** No directive: no '[' with a ']' anywhere after it. */
  predicate Clean(s: string) {
    forall i, j | 0 <= i < j < |s| :: !(s[i] == '[' && s[j] == ']')
  }

  lemma {:induction false} NothingToClose(s: string, k: nat)
    requires k <= |s| && NextClose(s, k) == |s|
    ensures StripAt(s, k) == s[k..]
    decreases |s| - k
  {
    if k < |s| {
      NothingToClose(s, k + 1);
      assert s[k..] == [s[k]] + s[k + 1..];
    }
  }

  lemma {:induction false} StripAtCleans(s: string, k: nat)
    requires k <= |s|
    ensures Clean(StripAt(s, k))
    decreases |s| - k
  {
    if k == |s| {
    } else if MatchAt(s, k) {
      StripAtCleans(s, NextClose(s, k) + 1);
    } else if s[k] == '[' {
      NothingToClose(s, k);
    } else {
      StripAtCleans(s, k + 1);
    }
  }

  lemma {:induction false} CleanIsKept(s: string, k: nat)
    requires k <= |s| && Clean(s)
    ensures StripAt(s, k) == s[k..]
    decreases |s| - k
  {
    if k < |s| {
      assert !MatchAt(s, k);
      CleanIsKept(s, k + 1);
      assert s[k..] == [s[k]] + s[k + 1..];
    }
  }

  lemma StripCleans(s: string)
    ensures Clean(Strip(s))
  {
    StripAtCleans(s, 0);
  }

  lemma StripTwice(s: string)
    ensures Strip(Strip(s)) == Strip(s)
  {
    StripCleans(s);
    CleanIsKept(Strip(s), 0);
  }

  // ---------------------------------------------------------------- two texts

  /** Reading from place d on is reading the text that begins there. */
  lemma {:induction false} NextCloseShift(s: string, t: string, d: nat, m: nat)
    requires d <= |s| && t == s[d..] && m <= |t|
    ensures NextClose(s, d + m) == d + NextClose(t, m)
    decreases |t| - m
  {
    if m < |t| {
      assert s[d + m] == t[m];
      NextCloseShift(s, t, d, m + 1);
    }
  }

  lemma {:induction false} StripShift(s: string, t: string, d: nat, m: nat)
    requires d <= |s| && t == s[d..] && m <= |t|
    ensures StripAt(s, d + m) == StripAt(t, m)
    decreases |t| - m
  {
    if m < |t| {
      var k := d + m;
      assert s[k] == t[m];
      NextCloseShift(s, t, d, m);
      if MatchAt(t, m) {
        StripShift(s, t, d, NextClose(t, m) + 1);
      } else {
        StripShift(s, t, d, m + 1);
        StripKeeps(s, k);
        StripKeeps(t, m);
      }
    }
  }

  lemma StripFromPlace(s: string, t: string, k: nat, m: nat)
    requires m <= k <= |s| && t == s[k - m..]
    ensures m <= |t| && StripAt(s, k) == StripAt(t, m)
  {
    StripShift(s, t, k - m, m);
  }

  lemma SecondText(a: string, b: string)
    ensures (a + b)[|a|..] == b
  {
  }

  lemma StripSecond(a: string, b: string, m: nat)
    requires m <= |b|
    ensures StripAt(a + b, |a| + m) == StripAt(b, m)
  {
    SecondText(a, b);
    StripShift(a + b, b, |a|, m);
  }

  lemma {:induction false} NextCloseInBoth(a: string, b: string, k: nat)
    requires k <= |a|
    ensures NextClose(a + b, k) == if NextClose(a, k) < |a| then NextClose(a, k) else |a| + NextClose(b, 0)
    decreases |a| - k
  {
    if k == |a| {
      SecondText(a, b);
      NextCloseShift(a + b, b, |a|, 0);
    } else {
      assert (a + b)[k] == a[k];
      NextCloseInBoth(a, b, k + 1);
    }
  }

  /** Matches in the first text stay; an open bracket in it matches if the second text closes it. */
  lemma MatchInBoth(a: string, b: string, k: nat)
    requires k < |a|
    ensures (a + b)[k] == a[k]
    ensures MatchAt(a, k) ==> MatchAt(a + b, k) && NextClose(a + b, k) == NextClose(a, k)
    ensures !MatchAt(a, k) ==> (MatchAt(a + b, k) <==> a[k] == '[' && NextClose(b, 0) < |b|)
  {
    NextCloseInBoth(a, b, k);
  }

  /** If the first text leaves no '[' open, its brackets do not see the second. */
  lemma {:induction false} StripClosed(a: string, b: string, k: nat)
    requires k <= |a| && ('[' !in StripAt(a, k) || NextClose(b, 0) == |b|)
    ensures StripAt(a + b, k) == StripAt(a, k) + Strip(b)
    decreases |a| - k
  {
    if k == |a| {
      StripSecond(a, b, 0);
    } else {
      MatchInBoth(a, b, k);
      if MatchAt(a, k) {
        StripDrops(a + b, k, NextClose(a, k) + 1);
        StripClosed(a, b, NextClose(a, k) + 1);
      } else {
        StripKeeps(a, k);
        assert a[k] in StripAt(a, k);
        StripClosed(a, b, k + 1);
        StripKeptBefore(a, b, k);
      }
    }
  }

  lemma StripKeptBefore(a: string, b: string, k: nat)
    requires k < |a| && !MatchAt(a, k) && !MatchAt(a + b, k) && (a + b)[k] == a[k]
    requires StripAt(a + b, k + 1) == StripAt(a, k + 1) + Strip(b)
    ensures StripAt(a + b, k) == StripAt(a, k) + Strip(b)
  {
    StripKeeps(a + b, k);
    StripKeeps(a, k);
    Regroup([a[k]], StripAt(a, k + 1), Strip(b));
  }

  /** Text after the first ']' strips to no more than the whole. */
  lemma {:induction false} StripAfterClose(b: string, m: nat)
    requires m <= |b| && NextClose(b, m) < |b|
    ensures |StripAt(b, m)| >= |StripAt(b, NextClose(b, m) + 1)|
    decreases |b| - m
  {
    if b[m] == ']' {
      assert NextClose(b, m) == m && !MatchAt(b, m);
    } else if MatchAt(b, m) {
    } else {
      assert NextClose(b, m) == NextClose(b, m + 1);
      StripAfterClose(b, m + 1);
    }
  }

  /** An open bracket of the first text takes everything up to the first ']' of the second. */
  lemma OpenTakes(a: string, b: string, k: nat)
    requires k < |a| && a[k] == '[' && !MatchAt(a, k) && NextClose(b, 0) < |b|
    ensures StripAt(a + b, k) == StripAt(b, NextClose(b, 0) + 1)
  {
    var s, close := a + b, NextClose(b, 0);
    var next, m := |a| + close + 1, close + 1;
    OpenMeets(a, b, k);
    StripDrops(s, k, next);
    SecondText(a, b);
    StripFromPlace(s, b, next, m);
  }

  lemma OpenMeets(a: string, b: string, k: nat)
    requires k < |a| && a[k] == '[' && !MatchAt(a, k) && NextClose(b, 0) < |b|
    ensures MatchAt(a + b, k) && NextClose(a + b, k) == |a| + NextClose(b, 0)
  {
    NextCloseInBoth(a, b, k);
    MatchInBoth(a, b, k);
  }

  lemma StripNotEmpty(s: string, k: nat)
    requires k < |s| && !MatchAt(s, k)
    ensures |StripAt(s, k)| == 1 + |StripAt(s, k + 1)|
  {
  }

  /** If the first text leaves a '[' open and the second has a ']', together they strip to less. */
  lemma {:induction false} StripOpen(a: string, b: string, k: nat)
    requires k <= |a| && '[' in StripAt(a, k) && NextClose(b, 0) < |b|
    ensures |StripAt(a + b, k)| < |StripAt(a, k)| + |Strip(b)|
    decreases |a| - k
  {
    MatchInBoth(a, b, k);
    if MatchAt(a, k) {
      StripDrops(a + b, k, NextClose(a, k) + 1);
      StripOpen(a, b, NextClose(a, k) + 1);
    } else if a[k] == '[' {
      OpenTakes(a, b, k);
      StripAfterClose(b, 0);
      StripNotEmpty(a, k);
    } else {
      StripKeeps(a, k);
      StripOpen(a, b, k + 1);
      StripNotEmpty(a, k);
      StripNotEmpty(a + b, k);
    }
  }

  /** Stripping two texts apart equals stripping them together, exactly when the first leaves
      no bracket open or the second has nothing to close it with. */
  lemma StripConcat(a: string, b: string)
    ensures Strip(a + b) == Strip(a) + Strip(b) <==> '[' !in Strip(a) || ']' !in b
  {
    assert ']' in b <==> NextClose(b, 0) < |b|;
    if '[' in Strip(a) && ']' in b {
      StripOpen(a, b, 0);
    } else {
      StripClosed(a, b, 0);
    }
  }
}
