/**
 * File-name sanitisation (itunesify.py `move_files` and `retag_files`): nine
 * characters a file system may refuse are replaced, one `str.replace` per
 * character, in a fixed order.
 */
module Sanitize {
  import opened PyStr

  /** The characters replaced, in the order the loop visits them. */
  const Unsafe: seq<char> := ['<', '>', ':', '"', '/', '\\', '|', '?', '*']
  /** What each of them becomes, position by position. */
  const Safe: seq<char> := ['(', ')', '-', '\'', '-', '-', '-', '-', '-']

  const RuleCount: nat := 9

  /** The replacement of one character once every rule has been applied. */
  function SafeChar(c: char): (d: char)
    ensures d !in Unsafe
    ensures c !in Unsafe ==> d == c
    ensures c in Unsafe ==> exists k :: 0 <= k < RuleCount && Unsafe[k] == c && Safe[k] == d
  {
    if c == '<' then (assert Unsafe[0] == c; '(')
    else if c == '>' then (assert Unsafe[1] == c; ')')
    else if c == ':' then (assert Unsafe[2] == c; '-')
    else if c == '"' then (assert Unsafe[3] == c; '\'')
    else if c == '/' then (assert Unsafe[4] == c; '-')
    else if c == '\\' then (assert Unsafe[5] == c; '-')
    else if c == '|' then (assert Unsafe[6] == c; '-')
    else if c == '?' then (assert Unsafe[7] == c; '-')
    else if c == '*' then (assert Unsafe[8] == c; '-')
    else c
  }

  /** The sanitised name, character by character. */
  function Sanitized(s: string): (r: string)
    ensures |r| == |s|
    ensures forall i :: 0 <= i < |r| ==> r[i] !in Unsafe
    ensures forall i :: 0 <= i < |s| && s[i] !in Unsafe ==> r[i] == s[i]
  {
    seq(|s|, i requires 0 <= i < |s| => SafeChar(s[i]))
  }

  /** A character after the first `n` rules, each applied to the result of the ones before. */
  function AfterRules(c: char, n: nat): char
    requires n <= RuleCount
  {
    if n == 0 then c
    else
      var d := AfterRules(c, n - 1);
      if d == Unsafe[n - 1] then Safe[n - 1] else d
  }

  /** The name after the first `n` iterations of the loop. */
  function PartlySanitized(s: string, n: nat): (r: string)
    requires n <= RuleCount
    ensures |r| == |s|
  {
    seq(|s|, i requires 0 <= i < |s| => AfterRules(s[i], n))
  }

  /** After the first `n` rules a character is safe if one of them named it, and untouched otherwise. */
  lemma {:induction false} AfterRulesPrefix(c: char, n: nat)
    requires n <= RuleCount
    ensures AfterRules(c, n) == if c in Unsafe[..n] then SafeChar(c) else c
  {
    if n > 0 {
      AfterRulesPrefix(c, n - 1);
      assert Unsafe[..n] == Unsafe[..n - 1] + [Unsafe[n - 1]];
      if c !in Unsafe[..n - 1] && c == Unsafe[n - 1] {
        var k :| 0 <= k < RuleCount && Unsafe[k] == c && Safe[k] == SafeChar(c);
        if k >= n - 1 {
          UnsafeDistinct(n - 1, k);
        }
      }
    }
  }

  /** No character has two rules. */
  lemma UnsafeDistinct(i: nat, j: nat)
    requires i <= j < RuleCount && Unsafe[i] == Unsafe[j]
    ensures i == j
  {
  }

  /** Applying every rule in order replaces each character by its safe counterpart. */
  lemma AllRules(c: char)
    ensures AfterRules(c, RuleCount) == SafeChar(c)
  {
    AfterRulesPrefix(c, RuleCount);
    assert Unsafe[..RuleCount] == Unsafe;
  }

  /** The source's loop over the nine rules. */
  method SanitizeName(name: string) returns (r: string)
    ensures r == Sanitized(name)
  {
    r := name;
    assert r == PartlySanitized(name, 0);
    for i := 0 to RuleCount
      invariant r == PartlySanitized(name, i)
    {
      ReplaceOneChar(r, Unsafe[i], Safe[i]);
      r := Replace(r, [Unsafe[i]], [Safe[i]]);
      assert r == PartlySanitized(name, i + 1);
    }
    forall j | 0 <= j < |name| ensures r[j] == Sanitized(name)[j] {
      AllRules(name[j]);
    }
  }

  // ------------------------------------------------------------------
  // Properties
  // ------------------------------------------------------------------

  /** Sanitising a sanitised name changes nothing. */
  lemma SanitizeIdempotent(s: string)
    ensures Sanitized(Sanitized(s)) == Sanitized(s)
  {
  }

  /** A name without unsafe characters is left as it is. */
  lemma SanitizeSafeName(s: string)
    requires forall i :: 0 <= i < |s| ==> s[i] !in Unsafe
    ensures Sanitized(s) == s
  {
  }

  /** A substring free of unsafe characters survives sanitisation (so `" - EP"` and `" - Single"` do). */
  lemma SanitizeKeepsSafeSubstring(s: string, t: string)
    requires Contains(s, t)
    requires forall i :: 0 <= i < |t| ==> t[i] !in Unsafe
    ensures Contains(Sanitized(s), t)
  {
    var i := ContainsWitness(s, t);
    var r := Sanitized(s);
    assert r[i..i + |t|] == t by {
      forall j | 0 <= j < |t| ensures r[i + j] == t[j] {
        assert s[i + j] == t[j];
      }
    }
    ContainsAt(r, t, i);
  }

  /** A sanitised name never holds a path separator: it is always one path component. */
  lemma SanitizedNoSeparator(s: string)
    ensures '/' !in Sanitized(s)
  {
    assert Unsafe[4] == '/';
  }

  /** A safe prefix survives sanitisation whatever follows it. */
  lemma SanitizeKeepsSafePrefix(p: string, rest: string)
    requires forall i :: 0 <= i < |p| ==> p[i] !in Unsafe
    ensures StartsWith(Sanitized(p + rest), p)
  {
    var r := Sanitized(p + rest);
    forall i | 0 <= i < |p| ensures r[i] == p[i] {
      assert (p + rest)[i] == p[i];
    }
    assert r[..|p|] == p;
  }

  /** A safe suffix survives sanitisation whatever precedes it. */
  lemma SanitizeKeepsSafeSuffix(rest: string, e: string)
    requires forall i :: 0 <= i < |e| ==> e[i] !in Unsafe
    ensures EndsWith(Sanitized(rest + e), e)
  {
    var r := Sanitized(rest + e);
    forall i | 0 <= i < |e| ensures r[|rest| + i] == e[i] {
      assert (rest + e)[|rest| + i] == e[i];
    }
    assert r[|r| - |e|..] == e;
  }
}
