/** The argument part of the command regular expressions,
    `(\s+(\S+)){n}$`, as a matcher (`GroupsFrom`) and as a reference grammar
    (`Interleave` of `Spaced` gaps and arguments), with the proof that the
    two agree in both directions. */
module Grammar {
  import opened Wrappers
  import opened Text

  /** The anchored tail `(\s+(\S+)){n}$` of a command regular expression,
      matched against `s` from position `i` to the end: the captured groups,
      or None when it does not match. `\s` and `\S` are complementary, so
      greedy matching without backtracking finds the only possible split. */
  function GroupsFrom(s: string, i: nat, n: nat): (r: Option<seq<string>>)
    requires i <= |s|
    ensures r.Some? ==> |r.value| == n
    decreases n
  {
    if n == 0 then
      if i == |s| then Some([]) else None
    else
      var a := RunFrom(s, i, true);
      var b := RunFrom(s, a, false);
      if a == i || b == a then None
      else
        var rest := GroupsFrom(s, b, n - 1);
        if rest.None? then None else Some([s[a..b]] + rest.value)
  }

  /** The reference grammar: the text a list of whitespace gaps and
      arguments spells out, gap first. */
  function Interleave(gaps: seq<string>, tokens: seq<string>): string
    requires |gaps| == |tokens|
  {
    if gaps == [] then [] else gaps[0] + tokens[0] + Interleave(gaps[1..], tokens[1..])
  }

  /** Every gap is `\s+` and every argument is `\S+`, one gap per argument. */
  predicate Spaced(gaps: seq<string>, tokens: seq<string>) {
    && |gaps| == |tokens|
    && (forall k | 0 <= k < |gaps| :: IsGap(gaps[k]))
    && (forall k | 0 <= k < |tokens| :: IsToken(tokens[k]))
  }

  /** A spelled-out argument list is empty or begins with whitespace. */
  lemma InterleaveStartsWithGap(gaps: seq<string>, tokens: seq<string>)
    requires Spaced(gaps, tokens)
    ensures Interleave(gaps, tokens) != [] ==> IsSpace(Interleave(gaps, tokens)[0])
  {
  }

  /** One step of a successful match: a gap `s[i..a]`, the first argument
      `s[a..b]`, then a match of the remaining arguments from `b`. */
  lemma GroupsStep(s: string, i: nat, n: nat) returns (a: nat, b: nat)
    requires i <= |s| && n > 0 && GroupsFrom(s, i, n).Some?
    ensures i < a < b <= |s|
    ensures IsGap(s[i..a]) && IsToken(s[a..b])
    ensures GroupsFrom(s, b, n - 1).Some?
    ensures GroupsFrom(s, i, n).value == [s[a..b]] + GroupsFrom(s, b, n - 1).value
  {
    a := RunFrom(s, i, true);
    b := RunFrom(s, a, false);
    RunFromStops(s, i, true);
    RunFromStops(s, a, false);
    assert forall k | 0 <= k < a - i :: s[i..a][k] == s[i + k];
    assert forall k | 0 <= k < b - a :: s[a..b][k] == s[a + k];
  }

  /** Every captured argument is `\S+`. */
  lemma {:induction false} GroupsAreTokens(s: string, i: nat, n: nat)
    requires i <= |s| && GroupsFrom(s, i, n).Some?
    ensures forall k | 0 <= k < n :: IsToken(GroupsFrom(s, i, n).value[k])
    decreases n
  {
    if n > 0 {
      var a, b := GroupsStep(s, i, n);
      GroupsAreTokens(s, b, n - 1);
      var tokens := GroupsFrom(s, i, n).value;
      assert forall k | 1 <= k < n :: tokens[k] == GroupsFrom(s, b, n - 1).value[k - 1];
    }
  }

  /** Where the matcher's first step lands on a spelled-out argument list:
      the gap and the first argument are exactly the greedy runs. */
  lemma InterleaveRuns(s: string, i: nat, gaps: seq<string>, tokens: seq<string>) returns (a: nat, b: nat)
    requires Spaced(gaps, tokens) && tokens != []
    requires i <= |s| && s[i..] == Interleave(gaps, tokens)
    ensures a == i + |gaps[0]| && b == a + |tokens[0]| && i < a < b <= |s|
    ensures RunFrom(s, i, true) == a && RunFrom(s, a, false) == b
    ensures s[a..b] == tokens[0]
    ensures Spaced(gaps[1..], tokens[1..]) && s[b..] == Interleave(gaps[1..], tokens[1..])
  {
    var g, t := gaps[0], tokens[0];
    var rest := Interleave(gaps[1..], tokens[1..]);
    a, b := i + |g|, i + |g| + |t|;
    assert s[i..] == g + t + rest;
    assert forall k | i <= k < a :: s[k] == g[k - i];
    assert forall k | a <= k < b :: s[k] == t[k - a];
    assert s[b..] == rest;
    assert Spaced(gaps[1..], tokens[1..]);
    InterleaveStartsWithGap(gaps[1..], tokens[1..]);
    assert b < |s| ==> s[b] == rest[0];
    RunStopsAt(s, i, a, true);
    RunStopsAt(s, a, b, false);
    assert s[a..b] == t;
  }

  /** Matching what the grammar spells out: the matcher recovers exactly
      the arguments when their number is the one it expects, and fails on
      any other number of arguments. */
  lemma {:induction false} GroupsOfInterleave(s: string, i: nat, gaps: seq<string>, tokens: seq<string>, n: nat)
    requires Spaced(gaps, tokens)
    requires i <= |s| && s[i..] == Interleave(gaps, tokens)
    ensures GroupsFrom(s, i, n) == if n == |tokens| then Some(tokens) else None
    decreases |tokens|
  {
    if tokens == [] {
      assert i == |s|;
      assert n > 0 ==> RunFrom(s, i, true) == i;
    } else if n == 0 {
      assert |s[i..]| >= |gaps[0]| > 0;
      assert i != |s|;
    } else {
      var a, b := InterleaveRuns(s, i, gaps, tokens);
      GroupsOfInterleave(s, b, gaps[1..], tokens[1..], n - 1);
      var rest := GroupsFrom(s, b, n - 1);
      assert GroupsFrom(s, i, n) == if rest.None? then None else Some([tokens[0]] + rest.value);
      assert tokens == [tokens[0]] + tokens[1..];
      assert n == |tokens| <==> n - 1 == |tokens[1..]|;
    }
  }

  /** Spelling out a gap `s[i..a]` and an argument `s[a..b]` in front of a
      spelling of `s[b..]` gives a spelling of `s[i..]`. */
  lemma InterleaveExtend(s: string, i: nat, a: nat, b: nat, gaps: seq<string>, tokens: seq<string>)
    requires i <= a <= b <= |s| && |gaps| == |tokens|
    requires Interleave(gaps, tokens) == s[b..]
    ensures Interleave([s[i..a]] + gaps, [s[a..b]] + tokens) == s[i..]
  {
  }

  /** Every match is spelled out by the grammar: the matched text is the
      interleaving of some whitespace gaps with the captured arguments. */
  lemma {:induction false} InterleaveOfGroups(s: string, i: nat, n: nat, tokens: seq<string>) returns (gaps: seq<string>)
    requires i <= |s| && GroupsFrom(s, i, n) == Some(tokens)
    ensures |gaps| == |tokens|
    ensures forall k | 0 <= k < |gaps| :: IsGap(gaps[k])
    ensures Interleave(gaps, tokens) == s[i..]
    decreases n
  {
    if n == 0 {
      gaps := [];
      assert tokens == [] && s[i..] == [];
      assert Interleave(gaps, tokens) == s[i..];
    } else {
      var a, b := GroupsStep(s, i, n);
      var gaps' := InterleaveOfGroups(s, b, n - 1, tokens[1..]);
      InterleaveExtend(s, i, a, b, gaps', tokens[1..]);
      gaps := [s[i..a]] + gaps';
      assert tokens == [s[a..b]] + tokens[1..];
      assert forall k | 1 <= k < |gaps| :: gaps[k] == gaps'[k - 1];
    }
  }

  /** The matcher and the grammar agree: a match recovers arguments that
      some well-formed gaps spell out into exactly the matched text. */
  lemma MatchIsSpelledOut(s: string, i: nat, n: nat) returns (gaps: seq<string>)
    requires i <= |s| && GroupsFrom(s, i, n).Some?
    ensures Spaced(gaps, GroupsFrom(s, i, n).value)
    ensures Interleave(gaps, GroupsFrom(s, i, n).value) == s[i..]
  {
    gaps := InterleaveOfGroups(s, i, n, GroupsFrom(s, i, n).value);
    GroupsAreTokens(s, i, n);
  }

  /** A match of at least one argument starts with whitespace: the keyword
      must be followed by `\s+`. */
  lemma GroupsStartWithGap(s: string, i: nat, n: nat)
    requires i <= |s| && n > 0 && GroupsFrom(s, i, n).Some?
    ensures i < |s| && IsSpace(s[i])
  {
  }

  /** A match of at least one argument ends with a non-whitespace
      character: `(\S+)$` leaves no room for trailing whitespace. */
  lemma {:induction false} GroupsEndWithToken(s: string, i: nat, n: nat)
    requires i <= |s| && n > 0 && GroupsFrom(s, i, n).Some?
    ensures i < |s| && !IsSpace(s[|s| - 1])
    decreases n
  {
    var a, b := GroupsStep(s, i, n);
    if n > 1 {
      GroupsEndWithToken(s, b, n - 1);
    }
  }
}
