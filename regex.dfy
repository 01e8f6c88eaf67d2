/**
 * The part of Python's `re.match` that the immigration code relies on: a pattern is a
 * sequence of groups, each group an ordered list of fixed-width branches, and a match is
 * searched for from a given position by leftmost-first backtracking, exactly as the
 * regular-expression engine tries the alternatives of `(a|b|c)` in the order written.
 * `re.match` is not anchored at the end: whatever follows the match is ignored.
 */
module Regex {
  import opened Wrappers

  /** One character position of a pattern. */
  datatype CharClass =
    | AnyButNewline                  // `.` without the DOTALL flag
    | CharRange(lo: char, hi: char)  // `[lo-hi]`; a literal character c is `[c-c]`

  predicate ClassMatches(k: CharClass, c: char)
  {
    match k
    case AnyButNewline => c != '\n'
    case CharRange(lo, hi) => lo <= c <= hi
  }

  function Lit(c: char): CharClass { CharRange(c, c) }

  /** `\d` restricted to ASCII digits. */
  const Digit: CharClass := CharRange('0', '9')

  /** A fixed-width alternative: one class per character it consumes. */
  type Branch = seq<CharClass>

  /** A group `(b1|b2|...)`: branches tried in the order written. */
  type Group = seq<Branch>

  type Pattern = seq<Group>

  /** Branch `b` matches the text `t` exactly. */
  predicate FullMatch(b: Branch, t: string)
  {
    |b| == |t| && forall k :: 0 <= k < |b| ==> ClassMatches(b[k], t[k])
  }

  /** Branch `b` matches the characters of `s` starting at position `i`. */
  predicate BranchMatchesAt(b: Branch, s: string, i: nat)
  {
    i + |b| <= |s| && FullMatch(b, s[i..i + |b|])
  }

  /** Some branch of group `g` spells the text `t`. */
  ghost predicate Spelled(g: Group, t: string)
  {
    exists b :: b in g && FullMatch(b, t)
  }

  /** All captures laid end to end: the text the whole match consumed. */
  function Concat(caps: seq<string>): string
  {
    if caps == [] then [] else caps[0] + Concat(caps[1..])
  }

  /**
   * The declarative meaning of a match: `caps` holds one capture per group, each capture
   * is spelled by some branch of its group, and the captures follow one another in `s`
   * from position `i` on.
   */
  ghost predicate Matches(p: Pattern, s: string, i: nat, caps: seq<string>)
    decreases p
  {
    if p == [] then caps == []
    else
      |caps| > 0 && i + |caps[0]| <= |s| && s[i..i + |caps[0]|] == caps[0] &&
      Spelled(p[0], caps[0]) &&
      Matches(p[1..], s, i + |caps[0]|, caps[1..])
  }

  /**
   * `re.match(p, s[i:])`: the captures of the first match found by backtracking, or None.
   * Whatever it returns is a match in the sense of `Matches`.
   */
  function MatchAt(p: Pattern, s: string, i: nat): (r: Option<seq<string>>)
    requires i <= |s|
    ensures r.Some? ==> Matches(p, s, i, r.value)
    decreases |p|, 1, 0
  {
    if p == [] then Some([]) else TryBranches(p[0], p[1..], s, i)
  }

  /** Tries the branches of group `g` in order, each followed by a match of `rest`. */
  function TryBranches(g: Group, rest: Pattern, s: string, i: nat): (r: Option<seq<string>>)
    requires i <= |s|
    ensures r.Some? ==> Matches([g] + rest, s, i, r.value)
    decreases |rest| + 1, 0, |g|
  {
    if g == [] then None
    else if BranchMatchesAt(g[0], s, i) then
      match MatchAt(rest, s, i + |g[0]|)
      case Some(caps) =>
        var r := Some([s[i..i + |g[0]|]] + caps);
        assert ([g] + rest)[1..] == rest;
        assert g[0] in ([g] + rest)[0];
        r
      case None => TryBranches(g[1..], rest, s, i)
    else TryBranches(g[1..], rest, s, i)
  }

  /** A successful match never reads past the end of `s`, and the captures spell the text consumed. */
  lemma {:induction false} MatchesConsume(p: Pattern, s: string, i: nat, caps: seq<string>)
    requires i <= |s| && Matches(p, s, i, caps)
    ensures |caps| == |p|
    ensures i + |Concat(caps)| <= |s| && s[i..i + |Concat(caps)|] == Concat(caps)
    decreases p
  {
    if p != [] {
      MatchesConsume(p[1..], s, i + |caps[0]|, caps[1..]);
      var j := i + |caps[0]|;
      assert Concat(caps) == caps[0] + Concat(caps[1..]);
      assert s[i..j + |Concat(caps[1..])|] == s[i..j] + s[j..j + |Concat(caps[1..])|];
    }
  }

  /** Backtracking is complete: if `g` has a branch that leads to a match of `rest`, one is found. */
  lemma {:induction false} TryBranchesFinds(g: Group, rest: Pattern, s: string, i: nat, b: Branch)
    requires i <= |s|
    requires b in g && BranchMatchesAt(b, s, i) && MatchAt(rest, s, i + |b|).Some?
    ensures TryBranches(g, rest, s, i).Some?
    decreases |g|
  {
    if !(BranchMatchesAt(g[0], s, i) && MatchAt(rest, s, i + |g[0]|).Some?) {
      assert b in g[1..];
      TryBranchesFinds(g[1..], rest, s, i, b);
    }
  }

  /** `re.match` finds a match whenever one exists: the partner of the soundness stated on `MatchAt`. */
  lemma {:induction false} MatchAtComplete(p: Pattern, s: string, i: nat, caps: seq<string>)
    requires i <= |s| && Matches(p, s, i, caps)
    ensures MatchAt(p, s, i).Some?
    decreases p
  {
    if p != [] {
      var b :| b in p[0] && FullMatch(b, caps[0]);
      MatchAtComplete(p[1..], s, i + |caps[0]|, caps[1..]);
      TryBranchesFinds(p[0], p[1..], s, i, b);
    }
  }

  /** Every group of `p` has exactly one branch: the pattern has no alternation. */
  predicate NoAlternation(p: Pattern)
  {
    forall k :: 0 <= k < |p| ==> |p[k]| == 1
  }

  /**
   * The first branch of every group laid end to end: for a pattern without alternation,
   * the single branch it amounts to.
   */
  function Join(p: Pattern): Branch
  {
    if p == [] then [] else (if p[0] == [] then [] else p[0][0]) + Join(p[1..])
  }

  lemma BranchMatchesAtConcat(b1: Branch, b2: Branch, s: string, i: nat)
    ensures BranchMatchesAt(b1 + b2, s, i) <==> BranchMatchesAt(b1, s, i) && BranchMatchesAt(b2, s, i + |b1|)
  {
    if BranchMatchesAt(b1, s, i) && BranchMatchesAt(b2, s, i + |b1|) {
      forall k | 0 <= k < |b1 + b2|
        ensures ClassMatches((b1 + b2)[k], s[i..i + |b1 + b2|][k])
      {
        if k < |b1| {
          assert s[i..i + |b1|][k] == s[i + k];
        } else {
          assert s[i + |b1|..i + |b1| + |b2|][k - |b1|] == s[i + k];
        }
      }
    }
    if BranchMatchesAt(b1 + b2, s, i) {
      forall k | 0 <= k < |b1|
        ensures ClassMatches(b1[k], s[i..i + |b1|][k])
      {
        assert (b1 + b2)[k] == b1[k] && s[i..i + |b1 + b2|][k] == s[i + k];
      }
      forall k | 0 <= k < |b2|
        ensures ClassMatches(b2[k], s[i + |b1|..i + |b1| + |b2|][k])
      {
        assert (b1 + b2)[|b1| + k] == b2[k] && s[i..i + |b1 + b2|][|b1| + k] == s[i + |b1| + k];
      }
    }
  }

  /** Without alternation there is nothing to backtrack over: `re.match` succeeds iff the joined branch matches. */
  lemma {:induction false} MatchAtNoAlternation(p: Pattern, s: string, i: nat)
    requires i <= |s| && NoAlternation(p)
    ensures MatchAt(p, s, i).Some? <==> BranchMatchesAt(Join(p), s, i)
    decreases p
  {
    if p != [] {
      var b := p[0][0];
      assert p[0][1..] == [];
      BranchMatchesAtConcat(b, Join(p[1..]), s, i);
      if BranchMatchesAt(b, s, i) {
        MatchAtNoAlternation(p[1..], s, i + |b|);
      }
    }
  }

  /**
   * Leftmost-first: the branch `g[k]` is the one taken when every earlier branch either
   * fails to match at `i` or cannot be followed by a match of `rest`.
   */
  lemma {:induction false} TryBranchesPicksFirst(g: Group, rest: Pattern, s: string, i: nat, k: nat, caps: seq<string>)
    requires i <= |s| && k < |g|
    requires BranchMatchesAt(g[k], s, i) && MatchAt(rest, s, i + |g[k]|) == Some(caps)
    requires forall j :: 0 <= j < k ==> !BranchMatchesAt(g[j], s, i) || MatchAt(rest, s, i + |g[j]|).None?
    ensures TryBranches(g, rest, s, i) == Some([s[i..i + |g[k]|]] + caps)
    decreases k
  {
    if k > 0 {
      assert !BranchMatchesAt(g[0], s, i) || MatchAt(rest, s, i + |g[0]|).None?;
      TryBranchesPicksFirst(g[1..], rest, s, i, k - 1, caps);
    }
  }

  /** The same, stated for `re.match` of the group in front of `rest`. */
  lemma MatchAtTakes(g: Group, rest: Pattern, s: string, i: nat, k: nat, caps: seq<string>)
    requires i <= |s| && k < |g|
    requires BranchMatchesAt(g[k], s, i) && MatchAt(rest, s, i + |g[k]|) == Some(caps)
    requires forall j :: 0 <= j < k ==> !BranchMatchesAt(g[j], s, i) || MatchAt(rest, s, i + |g[j]|).None?
    ensures MatchAt([g] + rest, s, i) == Some([s[i..i + |g[k]|]] + caps)
  {
    TryBranchesPicksFirst(g, rest, s, i, k, caps);
    assert ([g] + rest)[0] == g && ([g] + rest)[1..] == rest;
  }

  /** A branch fails at `i` as soon as one of its positions rejects the character found there. */
  lemma BranchRejects(b: Branch, s: string, i: nat, k: nat)
    requires k < |b| && i + k < |s| && !ClassMatches(b[k], s[i + k])
    ensures !BranchMatchesAt(b, s, i)
  {
    if i + |b| <= |s| {
      assert s[i..i + |b|][k] == s[i + k];
    }
  }
}
