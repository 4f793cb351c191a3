/** The shell-style matcher behind `shExpMatch` in PAC files. */
module Glob {
  import opened Wrappers

  predicate Fits(p: char, c: char) {
    p == '?' || p == c
  }

  /**
   * What a pattern means: `*` stands for any run of characters (also none), `?` for any
   * one character, and every other character for itself.
   */
  ghost predicate Matches(pat: string, s: string)
    decreases |pat|
  {
    if pat == [] then s == []
    else if pat[0] == '*' then exists k :: 0 <= k <= |s| && Matches(pat[1..], s[k..])
    else s != [] && Fits(pat[0], s[0]) && Matches(pat[1..], s[1..])
  }

  function Join(pieces: seq<string>): string {
    if pieces == [] then [] else pieces[0] + Join(pieces[1..])
  }

  /** The text falls into one piece for each character of the pattern. */
  ghost predicate Tiles(pat: string, pieces: seq<string>) {
    && |pieces| == |pat|
    && forall i :: 0 <= i < |pat| && pat[i] != '*' ==> |pieces[i]| == 1 && (pat[i] == '?' || pieces[i][0] == pat[i])
  }

  lemma {:induction false} TilesMatch(pat: string, pieces: seq<string>)
    requires Tiles(pat, pieces)
    ensures Matches(pat, Join(pieces))
    decreases |pat|
  {
    if pat != [] {
      var s := Join(pieces);
      TilesMatch(pat[1..], pieces[1..]);
      assert s[|pieces[0]|..] == Join(pieces[1..]);
    }
  }

  lemma {:induction false} MatchTiles(pat: string, s: string) returns (pieces: seq<string>)
    requires Matches(pat, s)
    ensures Tiles(pat, pieces) && Join(pieces) == s
    decreases |pat|
  {
    if pat == [] {
      pieces := [];
    } else {
      var k: nat := 1;
      if pat[0] == '*' {
        k :| 0 <= k <= |s| && Matches(pat[1..], s[k..]);
      }
      var rest := MatchTiles(pat[1..], s[k..]);
      pieces := [s[..k]] + rest;
      assert pieces[1..] == rest;
    }
  }

  /** A match is a division of the text into pieces: any text for a star, one character for any other. */
  lemma MatchesIffTiled(pat: string, s: string)
    ensures Matches(pat, s) <==> exists pieces :: Tiles(pat, pieces) && Join(pieces) == s
  {
    if Matches(pat, s) {
      var pieces := MatchTiles(pat, s);
    }
    if pieces :| Tiles(pat, pieces) && Join(pieces) == s {
      TilesMatch(pat, pieces);
    }
  }

  ghost predicate StarFree(lit: string) {
    forall x :: 0 <= x < |lit| ==> lit[x] != '*'
  }

  /** `lit` has no star and matches `s` character by character. */
  ghost predicate LiteralRun(lit: string, s: string) {
    StarFree(lit) && |lit| == |s| && forall x :: 0 <= x < |lit| ==> Fits(lit[x], s[x])
  }

  /** A star-free stretch of pattern uses up exactly as many characters as it has. */
  lemma {:induction false} LiteralPrefix(lit: string, rest: string, s: string)
    requires StarFree(lit)
    ensures Matches(lit + rest, s) <==>
            |lit| <= |s| && LiteralRun(lit, s[..|lit|]) && Matches(rest, s[|lit|..])
    decreases |lit|
  {
    if lit == [] {
      assert lit + rest == rest && s[0..] == s;
    } else {
      assert (lit + rest)[1..] == lit[1..] + rest;
      if s != [] {
        LiteralPrefix(lit[1..], rest, s[1..]);
        if |lit| <= |s| {
          var t := s[..|lit|];
          assert s[1..][..|lit| - 1] == t[1..] && s[1..][|lit| - 1..] == s[|lit|..];
          assert lit == [lit[0]] + lit[1..] && t == [s[0]] + t[1..];
        }
      }
    }
  }

  lemma StarSplits(pat: string, s: string) returns (k: nat)
    requires pat != [] && pat[0] == '*' && Matches(pat, s)
    ensures k <= |s| && Matches(pat[1..], s[k..])
  {
    k :| 0 <= k <= |s| && Matches(pat[1..], s[k..]);
  }

  lemma StarJoins(pat: string, s: string, k: nat)
    requires pat != [] && pat[0] == '*' && k <= |s| && Matches(pat[1..], s[k..])
    ensures Matches(pat, s)
  {
  }

  lemma StarStep(pat: string, s: string)
    requires pat != [] && pat[0] == '*' && s != []
    ensures Matches(pat, s) <==> Matches(pat[1..], s) || Matches(pat, s[1..])
  {
    assert s[0..] == s;
    if Matches(pat, s) {
      var k :| 0 <= k <= |s| && Matches(pat[1..], s[k..]);
      if k > 0 {
        assert s[1..][k - 1..] == s[k..];
      }
    }
    if Matches(pat, s[1..]) {
      StarAbsorbs(pat, s, 1);
    }
  }

  /** A leading star swallows whatever stands before a later match. */
  lemma StarAbsorbs(pat: string, s: string, j: nat)
    requires pat != [] && pat[0] == '*' && j <= |s| && Matches(pat, s[j..])
    ensures Matches(pat, s)
  {
    var k :| 0 <= k <= |s[j..]| && Matches(pat[1..], s[j..][k..]);
    assert s[j..][k..] == s[j + k..];
  }

  lemma {:induction false} OnlyStarsMatchEmpty(pat: string)
    ensures Matches(pat, []) <==> forall x :: 0 <= x < |pat| ==> pat[x] == '*'
    decreases |pat|
  {
    if pat != [] {
      OnlyStarsMatchEmpty(pat[1..]);
      var e: string := [];
      assert e[0..] == e;
      assert pat == [pat[0]] + pat[1..];
      if pat[0] == '*' {
        assert Matches(pat, e) <==> Matches(pat[1..], e);
      }
    }
  }

  /** Everything the matcher relies on between rounds. */
  ghost predicate OnTrack(pat: string, s: string, star: Option<nat>, matchPos: nat, p: nat, si: nat): (r: bool)
    ensures r ==> p <= |pat| && matchPos <= si <= |s| && (star.Some? ==> star.value < p)
  {
    && p <= |pat| && matchPos <= si <= |s|
    && match star
       case None => p == si && matchPos == 0 && (Matches(pat, s) <==> Matches(pat[p..], s[si..]))
       case Some(sp) =>
         && sp < p && pat[sp] == '*'
         && LiteralRun(pat[sp + 1..p], s[matchPos..si])
         && (Matches(pat, s) <==> Matches(pat[sp..], s[matchPos..]))
  }

  /** The part of the pattern after the star, split at the current position. */
  lemma AfterStar(pat: string, s: string, sp: nat, from: nat, p: nat, k: nat)
    requires sp < p <= |pat| && StarFree(pat[sp + 1..p]) && from + k <= |s|
    ensures Matches(pat[sp..][1..], s[from..][k..]) <==>
            && p - sp - 1 <= |s| - from - k
            && LiteralRun(pat[sp + 1..p], s[from + k..from + k + (p - sp - 1)])
            && Matches(pat[p..], s[from + k + (p - sp - 1)..])
  {
    var lit, t := pat[sp + 1..p], s[from..][k..];
    assert pat[sp..][1..] == lit + pat[p..] && t == s[from + k..];
    LiteralPrefix(lit, pat[p..], t);
    if |lit| <= |t| {
      assert t[..|lit|] == s[from + k..from + k + |lit|] && t[|lit|..] == s[from + k + |lit|..];
    }
  }

  /**
   * Moving the retry point to a new star loses nothing: an older star could only have
   * swallowed more, and the new star can swallow that instead.
   */
  lemma NewStar(pat: string, s: string, star: Option<nat>, matchPos: nat, p: nat, si: nat)
    requires OnTrack(pat, s, star, matchPos, p, si) && p < |pat| && pat[p] == '*'
    ensures OnTrack(pat, s, Some(p), si, p + 1, si)
  {
    hide Matches;
    if star.Some? {
      var sp := star.value;
      if Matches(pat[sp..], s[matchPos..]) {
        var k := StarSplits(pat[sp..], s[matchPos..]);
        AfterStar(pat, s, sp, matchPos, p, k);
        assert s[si..][k..] == s[si + k..];
        StarAbsorbs(pat[p..], s[si..], k);
      }
      if Matches(pat[p..], s[si..]) {
        AfterStar(pat, s, sp, matchPos, p, 0);
        StarJoins(pat[sp..], s[matchPos..], 0);
      }
    }
  }

  lemma SameCharacter(pat: string, s: string, star: Option<nat>, matchPos: nat, p: nat, si: nat)
    requires OnTrack(pat, s, star, matchPos, p, si)
    requires p < |pat| && si < |s| && pat[p] != '*' && Fits(pat[p], s[si])
    ensures OnTrack(pat, s, star, matchPos, p + 1, si + 1)
  {
    match star
    case None =>
      assert pat[p..][1..] == pat[p + 1..] && s[si..][1..] == s[si + 1..];
    case Some(sp) =>
      assert pat[sp + 1..p + 1] == pat[sp + 1..p] + [pat[p]];
      assert s[matchPos..si + 1] == s[matchPos..si] + [s[si]];
  }

  /** A failed comparison rules out the current retry point, so the star swallows one more. */
  lemma Retry(pat: string, s: string, sp: nat, matchPos: nat, p: nat, si: nat)
    requires OnTrack(pat, s, Some(sp), matchPos, p, si) && si < |s|
    requires p < |pat| ==> pat[p] != '*' && !Fits(pat[p], s[si])
    ensures OnTrack(pat, s, Some(sp), matchPos + 1, sp + 1, matchPos + 1)
  {
    AfterStar(pat, s, sp, matchPos, p, 0);
    assert s[matchPos..][0..] == s[matchPos..] && s[matchPos..][1..] == s[matchPos + 1..];
    StarStep(pat[sp..], s[matchPos..]);
  }

  lemma NoStarToRetry(pat: string, s: string, matchPos: nat, p: nat, si: nat)
    requires OnTrack(pat, s, None, matchPos, p, si) && si < |s|
    requires p < |pat| ==> pat[p] != '*' && !Fits(pat[p], s[si])
    ensures !Matches(pat, s)
  {
  }

  lemma Start(pat: string, s: string)
    ensures OnTrack(pat, s, None, 0, 0, 0)
  {
    assert pat[0..] == pat && s[0..] == s;
  }

  /** With the text used up, only the retry point itself can still give a match. */
  lemma EndOfText(pat: string, s: string, star: Option<nat>, matchPos: nat, p: nat)
    requires OnTrack(pat, s, star, matchPos, p, |s|)
    ensures Matches(pat, s) <==> Matches(pat[p..], [])
  {
    hide Matches;
    assert s[|s|..] == [];
    if star.Some? {
      var sp := star.value;
      AfterStar(pat, s, sp, matchPos, p, 0);
      if Matches(pat[sp..], s[matchPos..]) {
        var k := StarSplits(pat[sp..], s[matchPos..]);
        AfterStar(pat, s, sp, matchPos, p, k);
      }
      if Matches(pat[p..], []) {
        StarJoins(pat[sp..], s[matchPos..], 0);
      }
    }
  }

  /** The weight of a retry point in the bound on rounds. */
  lemma RoundsGrow(a: nat, b: nat, m: nat)
    requires a <= b
    ensures a * (m + 1) <= b * (m + 1)
    ensures a < b ==> a * (m + 1) + m + 1 <= b * (m + 1)
  {
    if a < b {
      assert b * (m + 1) == (a + 1) * (m + 1) + (b - a - 1) * (m + 1);
      assert (b - a - 1) * (m + 1) >= 0;
    }
  }

  /**
   * `glob_match`: one pass that remembers only the last star. It agrees with the meaning of
   * the pattern, and its two loops together make at most n(m + 1) + m rounds; `rounds` goes up
   * by one in every round of either loop and nowhere else.
   */
  method GlobMatch(pat: string, s: string) returns (r: bool, ghost rounds: nat)
    ensures r <==> Matches(pat, s)
    ensures rounds <= |s| * (|pat| + 1) + |pat|
  {
    hide OnTrack, Matches;
    var p: nat, si: nat := 0, 0;
    var star: Option<nat> := None;
    var matchPos: nat := 0;
    rounds := 0;
    Start(pat, s);
    while si < |s|
      invariant OnTrack(pat, s, star, matchPos, p, si)
      invariant rounds <= matchPos * (|pat| + 1) + p
      decreases |s| - matchPos, |pat| - p
    {
      rounds := rounds + 1;
      if p < |pat| && pat[p] == '*' {
        NewStar(pat, s, star, matchPos, p, si);
        RoundsGrow(matchPos, si, |pat|);
        star := Some(p);
        matchPos := si;
        p := p + 1;
      } else if p < |pat| && (pat[p] == '?' || pat[p] == s[si]) {
        SameCharacter(pat, s, star, matchPos, p, si);
        p := p + 1;
        si := si + 1;
      } else if star.Some? {
        Retry(pat, s, star.value, matchPos, p, si);
        RoundsGrow(matchPos, matchPos + 1, |pat|);
        p := star.value + 1;
        matchPos := matchPos + 1;
        si := matchPos;
      } else {
        NoStarToRetry(pat, s, matchPos, p, si);
        RoundsGrow(matchPos, |s|, |pat|);
        return false, rounds;
      }
    }
    EndOfText(pat, s, star, matchPos, p);
    RoundsGrow(matchPos, |s|, |pat|);
    OnlyStarsMatchEmpty(pat[p..]);
    ghost var rest := p;
    while p < |pat| && pat[p] == '*'
      invariant rest <= p <= |pat|
      invariant forall x :: rest <= x < p ==> pat[x] == '*'
      invariant rounds <= |s| * (|pat| + 1) + p
    {
      p := p + 1;
      rounds := rounds + 1;
    }
    assert p < |pat| ==> pat[rest..][p - rest] != '*';
    return p == |pat|, rounds;
  }
}
