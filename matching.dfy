/** The string tests lib/kruptein.js applies to algorithm names: a regular
    expression made of one literal word, `/gcm/`, matches when the word occurs
    anywhere in the name; with the `i` flag, letters are compared without case. */
module Matching {

  /** ASCII case folding. For a pattern of ASCII letters and digits this is
      exactly how a JavaScript regular expression with the `i` flag (and without
      `u`) compares characters: no other character folds onto an ASCII one. */
  function Lower(c: char): char {
    if 'A' <= c <= 'Z' then (c as int + 32) as char else c
  }

  /** The character as the comparison sees it. */
  function Fold(c: char, ignoreCase: bool): char {
    if ignoreCase then Lower(c) else c
  }

  /** The word `p` occurs in `s` starting at position `i`. */
  ghost predicate OccursAt(s: string, p: string, i: int, ignoreCase: bool) {
    && 0 <= i && i + |p| <= |s|
    && forall j :: 0 <= j < |p| ==> Fold(s[i + j], ignoreCase) == Fold(p[j], ignoreCase)
  }

  /** The word `p` appears at position `i` of `s` from its `j`-th character on,
      compared character by character. */
  predicate StartsAt(s: string, p: string, i: nat, j: nat, ignoreCase: bool)
    requires i + |p| <= |s| && j <= |p|
    decreases |p| - j
  {
    j == |p| || (Fold(s[i + j], ignoreCase) == Fold(p[j], ignoreCase) && StartsAt(s, p, i, j + 1, ignoreCase))
  }

  /** The regular expression's scan: try each starting position from `i` on. */
  predicate MatchesFrom(s: string, p: string, i: nat, ignoreCase: bool)
    decreases |s| - i
  {
    i + |p| <= |s| && (StartsAt(s, p, i, 0, ignoreCase) || MatchesFrom(s, p, i + 1, ignoreCase))
  }

  /** `/p/.test(s)` for a pattern `p` made of letters and digits only. */
  predicate Contains(s: string, p: string) {
    MatchesFrom(s, p, 0, false)
  }

  /** `/p/i.test(s)` for a pattern `p` made of letters and digits only. */
  predicate ContainsIgnoringCase(s: string, p: string) {
    MatchesFrom(s, p, 0, true)
  }

  lemma {:induction false} StartsAtIff(s: string, p: string, i: nat, j: nat, ignoreCase: bool)
    requires i + |p| <= |s| && j <= |p|
    ensures StartsAt(s, p, i, j, ignoreCase) <==>
      forall m :: j <= m < |p| ==> Fold(s[i + m], ignoreCase) == Fold(p[m], ignoreCase)
    decreases |p| - j
  {
    if j < |p| {
      StartsAtIff(s, p, i, j + 1, ignoreCase);
      if forall m :: j + 1 <= m < |p| ==> Fold(s[i + m], ignoreCase) == Fold(p[m], ignoreCase) {
        if Fold(s[i + j], ignoreCase) == Fold(p[j], ignoreCase) {
          forall m | j <= m < |p|
            ensures Fold(s[i + m], ignoreCase) == Fold(p[m], ignoreCase)
          {
          }
        }
      }
    }
  }

  /** The scan finds the word exactly when it occurs at or after `i`. */
  lemma {:induction false} MatchesFromIff(s: string, p: string, i: nat, ignoreCase: bool)
    ensures MatchesFrom(s, p, i, ignoreCase) <==> exists k :: i <= k && OccursAt(s, p, k, ignoreCase)
    decreases |s| - i
  {
    if i + |p| <= |s| {
      StartsAtIff(s, p, i, 0, ignoreCase);
      MatchesFromIff(s, p, i + 1, ignoreCase);
      if StartsAt(s, p, i, 0, ignoreCase) {
        assert OccursAt(s, p, i, ignoreCase);
      }
      if exists k :: i <= k && OccursAt(s, p, k, ignoreCase) {
        var k :| i <= k && OccursAt(s, p, k, ignoreCase);
        if k != i {
          assert i + 1 <= k;
        }
      }
    }
  }

  /** The scan finds the word exactly when it occurs somewhere. */
  lemma ContainsIff(s: string, p: string, ignoreCase: bool)
    ensures MatchesFrom(s, p, 0, ignoreCase) <==> exists k :: OccursAt(s, p, k, ignoreCase)
  {
    MatchesFromIff(s, p, 0, ignoreCase);
  }

  /** Every case-sensitive match is also a case-insensitive one. */
  lemma ContainsIgnoringCaseOfContains(s: string, p: string)
    requires Contains(s, p)
    ensures ContainsIgnoringCase(s, p)
  {
    ContainsIff(s, p, false);
    var i :| OccursAt(s, p, i, false);
    assert OccursAt(s, p, i, true) by {
      forall j | 0 <= j < |p|
        ensures Fold(s[i + j], true) == Fold(p[j], true)
      {
        assert Fold(s[i + j], false) == Fold(p[j], false);
      }
    }
    ContainsIff(s, p, true);
  }
}
