/**
 * Removing and counting SGR ("Select Graphic Rendition") escape sequences,
 * the `ESC '[' [0-9;]* 'm'` form of the CSI control sequence of ECMA-48,
 * section 8.3.117.
 *
 * The analyzer uses the one fixed pattern `\x1b\[[0-9;]*m` twice: once with a
 * substitution pass that deletes every match, once with a find-all that counts
 * the matches. Both scan left to right and never overlap two matches. Because
 * the parameter class `[0-9;]` cannot contain the final `m`, the greedy
 * `[0-9;]*` never backtracks: a match is `ESC`, `[`, the maximal run of
 * digits and semicolons that follows, then an `m`, or there is no match at
 * that position at all.
 */
module Ansi {

  /** The escape character, U+001B. */
  const ESC: char := '\U{1B}'

  /** The character class `[0-9;]` (ASCII digits only). */
  predicate IsParam(c: char) {
    '0' <= c <= '9' || c == ';'
  }

  /**
   * Reference definition of the language of the pattern: `t` is one complete
   * SGR sequence, ESC '[' followed by parameter characters and a final 'm'.
   */
  predicate IsSgr(t: seq<char>) {
    |t| >= 3 && t[0] == ESC && t[1] == '[' && t[|t| - 1] == 'm' &&
    forall k :: 2 <= k < |t| - 1 ==> IsParam(t[k])
  }

  /** Length of the maximal run of parameter characters starting at `j`. */
  function ParamRun(s: seq<char>, j: nat): (n: nat)
    requires j <= |s|
    ensures j + n <= |s|
    ensures forall k :: j <= k < j + n ==> IsParam(s[k])
    ensures j + n == |s| || !IsParam(s[j + n])
    decreases |s| - j
  {
    if j < |s| && IsParam(s[j]) then 1 + ParamRun(s, j + 1) else 0
  }

  /**
   * Length of the match of the pattern that starts at index `i` of `s`, or 0
   * when no match starts there.
   */
  function EscLenAt(s: seq<char>, i: nat): (n: nat)
    requires i <= |s|
    ensures n == 0 || (n >= 3 && i + n <= |s| && IsSgr(s[i..i + n]))
  {
    if i + 1 < |s| && s[i] == ESC && s[i + 1] == '[' then
      var run := ParamRun(s, i + 2);
      if i + 2 + run < |s| && s[i + 2 + run] == 'm' then
        run + 3
      else 0
    else 0
  }

  /**
   * The matcher is exact: a prefix of `s[i..]` is an SGR sequence if and only
   * if the matcher reports a match of exactly that length. In particular a
   * match, when there is one, is unique, so leftmost-first and greedy
   * matching agree with it, and a 0 means that no SGR sequence starts at `i`.
   */
  lemma EscLenAtExact(s: seq<char>, i: nat, j: nat)
    requires i <= j <= |s|
    ensures IsSgr(s[i..j]) <==> (EscLenAt(s, i) > 0 && j == i + EscLenAt(s, i))
  {
    var n := EscLenAt(s, i);
    if IsSgr(s[i..j]) {
      var t := s[i..j];
      assert s[i] == ESC && s[i + 1] == '[';
      var run := ParamRun(s, i + 2);
      // Every character between '[' and the final 'm' is a parameter, and 'm'
      // is not one, so the maximal run stops exactly before the final 'm'.
      assert forall k :: i + 2 <= k < j - 1 ==> IsParam(s[k]) by {
        forall k | i + 2 <= k < j - 1 ensures IsParam(s[k]) {
          assert t[k - i] == s[k];
        }
      }
      assert s[j - 1] == t[|t| - 1] == 'm';
      if i + 2 + run < j - 1 {
        assert false;
      }
      if i + 2 + run > j - 1 {
        assert false;
      }
      assert n == run + 3;
    }
  }

  /**
   * One substitution pass that deletes every match of the pattern, scanning
   * left to right: where a match starts it is skipped as a whole, otherwise
   * one character is kept and the scan advances by one.
   */
  function Strip(s: seq<char>): (r: seq<char>)
    ensures |r| <= |s|
    decreases |s|
  {
    if s == [] then []
    else
      var n := EscLenAt(s, 0);
      if n > 0 then Strip(s[n..]) else [s[0]] + Strip(s[1..])
  }

  /** Number of matches found by the same left-to-right, non-overlapping scan. */
  function CountEsc(s: seq<char>): (c: nat)
    ensures 3 * c <= |s|
    decreases |s|
  {
    if s == [] then 0
    else
      var n := EscLenAt(s, 0);
      if n > 0 then 1 + CountEsc(s[n..]) else CountEsc(s[1..])
  }

  /** A text with no escape character is left unchanged and has no match. */
  lemma {:induction false} NoEscUnchanged(s: seq<char>)
    requires ESC !in s
    ensures Strip(s) == s
    ensures CountEsc(s) == 0
    decreases |s|
  {
    if s != [] {
      assert EscLenAt(s, 0) == 0;
      assert s == [s[0]] + s[1..];
      NoEscUnchanged(s[1..]);
    }
  }

  // ---------------------------------------------------------------------
  // What the scan does at each position, stated against `IsSgr` alone.

  /**
   * A match at the scan position is removed as a whole and counted once;
   * scanning resumes right after it.
   */
  lemma StripRemovesLeadingMatch(t: seq<char>, v: seq<char>)
    requires IsSgr(t)
    ensures Strip(t + v) == Strip(v)
    ensures CountEsc(t + v) == 1 + CountEsc(v)
  {
    var s := t + v;
    assert s[0..|t|] == t;
    EscLenAtExact(s, 0, |t|);
    assert s[|t|..] == v;
  }

  /**
   * Where no prefix of the remaining text is an SGR sequence, the first
   * character is kept, nothing is counted, and the scan advances by one.
   */
  lemma StripKeepsNonMatch(s: seq<char>)
    requires s != []
    requires forall j :: 0 <= j <= |s| ==> !IsSgr(s[..j])
    ensures Strip(s) == [s[0]] + Strip(s[1..])
    ensures CountEsc(s) == CountEsc(s[1..])
  {
    var n := EscLenAt(s, 0);
    if n > 0 {
      assert false;
    }
  }

  /**
   * Plain text before a match survives unchanged and the match is deleted:
   * `Strip(u + t + v) == u + Strip(v)` when `u` has no escape character.
   */
  lemma {:induction false} PlainThenMatch(u: seq<char>, t: seq<char>, v: seq<char>)
    requires ESC !in u
    requires IsSgr(t)
    ensures Strip(u + t + v) == u + Strip(v)
    ensures CountEsc(u + t + v) == 1 + CountEsc(v)
    decreases |u|
  {
    assert u + t + v == u + (t + v);
    PlainThenMatchRest(u, t + v, t, v);
  }

  /** The induction behind `PlainThenMatch`, with the match and its tail kept together. */
  lemma {:induction false} PlainThenMatchRest(u: seq<char>, w: seq<char>, t: seq<char>, v: seq<char>)
    requires ESC !in u
    requires IsSgr(t) && w == t + v
    ensures Strip(u + w) == u + Strip(v)
    ensures CountEsc(u + w) == 1 + CountEsc(v)
    decreases |u|
  {
    if u == [] {
      assert u + w == t + v;
      StripRemovesLeadingMatch(t, v);
    } else {
      var s := u + w;
      assert s[0] == u[0];
      assert EscLenAt(s, 0) == 0;
      assert s[1..] == u[1..] + w;
      assert Strip(s) == [s[0]] + Strip(s[1..]);
      assert CountEsc(s) == CountEsc(s[1..]);
      PlainThenMatchRest(u[1..], w, t, v);
      assert u == [u[0]] + u[1..];
    }
  }

  // ---------------------------------------------------------------------
  // The scan as a decomposition of the input into pieces.

  /** A piece of the scanned text: a kept character or a matched sequence. */
  datatype Piece = Kept(c: char) | Code(text: seq<char>)

  /** The scan that both the substitution and the find-all perform. */
  function Scan(s: seq<char>): (ps: seq<Piece>)
    ensures forall k :: 0 <= k < |ps| && ps[k].Code? ==> IsSgr(ps[k].text)
    decreases |s|
  {
    if s == [] then []
    else
      var n := EscLenAt(s, 0);
      if n > 0 then [Code(s[..n])] + Scan(s[n..]) else [Kept(s[0])] + Scan(s[1..])
  }

  /** The characters of the pieces, in order. */
  function Join(ps: seq<Piece>): seq<char> {
    if ps == [] then []
    else (match ps[0] case Kept(c) => [c] case Code(t) => t) + Join(ps[1..])
  }

  /** The kept characters, in order. */
  function KeptText(ps: seq<Piece>): seq<char> {
    if ps == [] then []
    else (if ps[0].Kept? then [ps[0].c] else []) + KeptText(ps[1..])
  }

  /** How many pieces are matched sequences. */
  function CodeCount(ps: seq<Piece>): nat {
    if ps == [] then 0 else (if ps[0].Code? then 1 else 0) + CodeCount(ps[1..])
  }

  /** Total length of the matched sequences. */
  function CodeLength(ps: seq<Piece>): nat {
    if ps == [] then 0 else (if ps[0].Code? then |ps[0].text| else 0) + CodeLength(ps[1..])
  }

  /**
   * The scan loses nothing: joining its pieces gives back the input, the kept
   * characters are exactly what `Strip` returns, the matched sequences are
   * exactly what `CountEsc` counts, and their lengths make up the difference
   * between the raw and the stripped length.
   */
  lemma {:induction false} ScanAccounts(s: seq<char>)
    ensures Join(Scan(s)) == s
    ensures KeptText(Scan(s)) == Strip(s)
    ensures CodeCount(Scan(s)) == CountEsc(s)
    ensures |s| == |Strip(s)| + CodeLength(Scan(s))
    decreases |s|
  {
    if s != [] {
      var n := EscLenAt(s, 0);
      var ps := Scan(s);
      if n > 0 {
        ScanAccounts(s[n..]);
        assert ps[1..] == Scan(s[n..]);
        assert s == s[..n] + s[n..];
      } else {
        ScanAccounts(s[1..]);
        assert ps[1..] == Scan(s[1..]);
        assert s == [s[0]] + s[1..];
      }
    }
  }

  /** Every matched sequence has at least the three characters `ESC [ m`. */
  lemma {:induction false} CodeLengthBound(ps: seq<Piece>)
    requires forall k :: 0 <= k < |ps| && ps[k].Code? ==> IsSgr(ps[k].text)
    ensures CodeLength(ps) >= 3 * CodeCount(ps)
  {
    if ps != [] {
      CodeLengthBound(ps[1..]);
    }
  }

  /**
   * Length accounting: the raw length is the visual length plus the length of
   * the removed sequences, each at least three characters long.
   */
  lemma LengthAccounting(s: seq<char>)
    ensures |Strip(s)| + 3 * CountEsc(s) <= |s|
    ensures CountEsc(s) == 0 <==> |Strip(s)| == |s|
  {
    ScanAccounts(s);
    CodeLengthBound(Scan(s));
    if CountEsc(s) == 0 {
      CodeLengthZero(Scan(s));
    }
  }

  /** Without matched pieces there is no matched length. */
  lemma {:induction false} CodeLengthZero(ps: seq<Piece>)
    requires CodeCount(ps) == 0
    ensures CodeLength(ps) == 0
  {
    if ps != [] {
      CodeLengthZero(ps[1..]);
    }
  }

  // ---------------------------------------------------------------------
  // Subsequence.

  /** `t` can be obtained from `s` by deleting characters. */
  predicate IsSubsequence(t: seq<char>, s: seq<char>)
    decreases |s|
  {
    t == [] ||
    (s != [] &&
     ((t[0] == s[0] && IsSubsequence(t[1..], s[1..])) || IsSubsequence(t, s[1..])))
  }

  /** Deleting a prefix of the larger text keeps a subsequence a subsequence. */
  lemma {:induction false} SubsequenceOfSuffix(t: seq<char>, s: seq<char>, n: nat)
    requires n <= |s|
    requires IsSubsequence(t, s[n..])
    ensures IsSubsequence(t, s)
    decreases n
  {
    if n > 0 {
      assert s[1..][n - 1..] == s[n..];
      SubsequenceOfSuffix(t, s[1..], n - 1);
    }
  }

  /** The stripped text keeps the characters of the input in their order. */
  lemma {:induction false} StripIsSubsequence(s: seq<char>)
    ensures IsSubsequence(Strip(s), s)
    decreases |s|
  {
    if s != [] {
      var n := EscLenAt(s, 0);
      if n > 0 {
        StripIsSubsequence(s[n..]);
        SubsequenceOfSuffix(Strip(s), s, n);
      } else {
        StripIsSubsequence(s[1..]);
        var r := Strip(s);
        assert r[0] == s[0] && r[1..] == Strip(s[1..]);
      }
    }
  }

  // ---------------------------------------------------------------------
  // Examples.

  /**
   * A single pass is not idempotent: deleting the inner `ESC [ m` of
   * `ESC ESC [ m [ m` brings a new match together.
   */
  lemma StripNotIdempotent()
    ensures Strip([ESC, ESC, '[', 'm', '[', 'm']) == [ESC, '[', 'm']
    ensures Strip(Strip([ESC, ESC, '[', 'm', '[', 'm'])) == []
  {
    var s := [ESC, ESC, '[', 'm', '[', 'm'];
    var s1 := [ESC, '[', 'm', '[', 'm'];
    assert ParamRun(s1, 2) == 0;
    assert EscLenAt(s1, 0) == 3;
    assert Strip(['m']) == ['m'] by {
      assert ['m'][1..] == [];
    }
    assert Strip(['[', 'm']) == ['[', 'm'] by {
      assert ['[', 'm'][1..] == ['m'];
    }
    assert s1[3..] == ['[', 'm'];
    assert Strip(s1) == ['[', 'm'];
    assert EscLenAt(s, 0) == 0;
    assert s[1..] == s1;
    assert Strip(s) == [ESC, '[', 'm'];
    var t := [ESC, '[', 'm'];
    assert ParamRun(t, 2) == 0;
    assert EscLenAt(t, 0) == 3;
    assert t[3..] == [];
  }

  /** `ESC[31m AB ESC[0m`: raw length 11, visual text `AB`, two matches. */
  lemma RedExample()
    ensures var s := [ESC, '[', '3', '1', 'm', 'A', 'B', ESC, '[', '0', 'm'];
      |s| == 11 && Strip(s) == "AB" && CountEsc(s) == 2
  {
    var s := [ESC, '[', '3', '1', 'm', 'A', 'B', ESC, '[', '0', 'm'];
    var s3 := [ESC, '[', '0', 'm'];
    assert ParamRun(s3, 3) == 0;
    assert ParamRun(s3, 2) == 1;
    assert EscLenAt(s3, 0) == 4;
    assert s3[4..] == [];
    assert Strip(s3) == [] && CountEsc(s3) == 1;
    var s2 := ['B'] + s3;
    assert EscLenAt(s2, 0) == 0;
    assert s2[1..] == s3;
    assert Strip(s2) == ['B'] && CountEsc(s2) == 1;
    var s1 := ['A'] + s2;
    assert EscLenAt(s1, 0) == 0;
    assert s1[1..] == s2;
    assert Strip(s1) == ['A', 'B'] && CountEsc(s1) == 1;
    assert ParamRun(s, 4) == 0;
    assert ParamRun(s, 3) == 1;
    assert ParamRun(s, 2) == 2;
    assert EscLenAt(s, 0) == 5;
    assert s[5..] == s1;
  }
}
