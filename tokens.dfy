/** `text.split(/(\s+)/).filter((w) => w.length > 0)`: the maximal runs of whitespace and of
    non-whitespace characters, in order, with nothing lost. */
module Tokens {
  import opened Text

  /** A run is a non-empty string whose characters are all whitespace or all not. */
  predicate IsRun(r: string) {
    r != [] && (AllSpace(r) || NoSpace(r))
  }

  /** Every element is a run, and consecutive runs alternate between whitespace and
      non-whitespace. Stated recursively so that callers unfold it one run at a time. */
  ghost predicate RunList(runs: seq<string>) {
    runs == [] ||
      (IsRun(runs[0])
       && (|runs| > 1 ==> runs[1] != [] && IsSpace(runs[0][0]) != IsSpace(runs[1][0]))
       && RunList(runs[1..]))
  }

  /** Consecutive runs alternate between whitespace and non-whitespace. */
  ghost predicate Alternating(runs: seq<string>) {
    forall i, j {:trigger runs[i], runs[j]} :: 0 <= i < j < |runs| && j == i + 1 ==>
      runs[i] != [] && runs[j] != [] && IsSpace(runs[i][0]) != IsSpace(runs[j][0])
  }

  /** End of the maximal run of `s` that starts at 0 and already covers `s[..i]`. */
  function RunEnd(s: string, i: nat): (k: nat)
    requires 0 < i <= |s|
    requires forall j :: 0 <= j < i ==> IsSpace(s[j]) == IsSpace(s[0])
    ensures i <= k <= |s|
    ensures forall j :: 0 <= j < k ==> IsSpace(s[j]) == IsSpace(s[0])
    ensures k == |s| || IsSpace(s[k]) != IsSpace(s[0])
    decreases |s| - i
  {
    if i == |s| || IsSpace(s[i]) != IsSpace(s[0]) then i else RunEnd(s, i + 1)
  }

  function Runs(s: string): (r: seq<string>)
    ensures Concat(r) == s
    ensures RunList(r)
    ensures r == [] <==> s == []
    decreases |s|
  {
    if s == [] then []
    else
      var k := RunEnd(s, 1);
      var rest := Runs(s[k..]);
      RunsCons(s, k, rest);
      [s[..k]] + rest
  }

  /** The first run of `s` followed by the runs of the remainder. */
  lemma RunsCons(s: string, k: nat, rest: seq<string>)
    requires 0 < k <= |s|
    requires forall j :: 0 <= j < k ==> IsSpace(s[j]) == IsSpace(s[0])
    requires k == |s| || IsSpace(s[k]) != IsSpace(s[0])
    requires Concat(rest) == s[k..] && RunList(rest) && (rest == [] <==> s[k..] == [])
    ensures Concat([s[..k]] + rest) == s
    ensures RunList([s[..k]] + rest)
  {
    var head := s[..k];
    assert IsRun(head) by {
      if IsSpace(s[0]) {
        assert AllSpace(head);
      } else {
        assert NoSpace(head);
      }
    }
    assert rest != [] ==> rest[0] != [] && rest[0][0] == s[k] by {
      if rest != [] {
        RunAt(rest, 0);
        assert Concat(rest) == rest[0] + Concat(rest[1..]);
      }
    }
    var r := [head] + rest;
    assert r[1..] == rest;
    TakeDrop(s, k);
  }

  /** The run at `i`, and how it differs from the one before it. */
  lemma {:induction false} RunAt(runs: seq<string>, i: nat)
    requires RunList(runs) && i < |runs|
    ensures IsRun(runs[i])
    ensures i > 0 ==> runs[i - 1] != [] && IsSpace(runs[i - 1][0]) != IsSpace(runs[i][0])
    ensures i > 0 ==> AllSpace(runs[i - 1]) != AllSpace(runs[i])
  {
    if i > 0 {
      RunAt(runs[1..], i - 1);
      assert runs[1..][i - 1] == runs[i];
      if i > 1 {
        assert runs[1..][i - 2] == runs[i - 1];
      } else {
        assert IsRun(runs[0]);
      }
    }
  }

  /** `text.split(/(\s+)/).filter(...)` yields runs that alternate. */
  lemma RunsAlternate(s: string)
    ensures forall i :: 0 <= i < |Runs(s)| ==> IsRun(Runs(s)[i])
    ensures Alternating(Runs(s))
  {
    var r := Runs(s);
    RunListAlternates(r);
  }

  lemma RunListAlternates(r: seq<string>)
    requires RunList(r)
    ensures forall i :: 0 <= i < |r| ==> IsRun(r[i])
    ensures Alternating(r)
  {
    forall i | 0 <= i < |r| ensures IsRun(r[i]) {
      RunAt(r, i);
    }
    forall i, j | 0 <= i < j < |r| && j == i + 1
      ensures r[i] != [] && r[j] != [] && IsSpace(r[i][0]) != IsSpace(r[j][0])
    {
      RunAt(r, j);
    }
  }

  /** A non-whitespace run other than the first is preceded by a whitespace run. */
  lemma WordRunFollowsSpace(runs: seq<string>, i: nat)
    requires RunList(runs)
    requires 0 < i < |runs| && !AllSpace(runs[i])
    ensures IsRun(runs[i]) && AllSpace(runs[i - 1])
  {
    RunAt(runs, i);
    RunAt(runs, i - 1);
    var p, q := runs[i - 1], runs[i];
    assert IsSpace(p[0]) != IsSpace(q[0]);
  }
}
