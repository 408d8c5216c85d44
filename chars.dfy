/** Character classes and string helpers with the meaning ECMAScript gives them:
    `\s`, `\d`, `\w` of regular expressions, `String.prototype.trim`, and the
    ASCII case folding that the analyzer's case-insensitive comparisons rely on. */
module Chars {

  /** `\s` of an ECMAScript regular expression, which is also the set of code points
      `trim()` removes: the WhiteSpace and LineTerminator code points of ECMA-262
      (tab, LF, VT, FF, CR, space, NBSP, the Zs separators, LS, PS and the BOM). */
  predicate IsSpace(c: char) {
    var k := c as int;
    k == 0x09 || k == 0x0A || k == 0x0B || k == 0x0C || k == 0x0D || k == 0x20 ||
    k == 0xA0 || k == 0x1680 || (0x2000 <= k <= 0x200A) || k == 0x2028 ||
    k == 0x2029 || k == 0x202F || k == 0x205F || k == 0x3000 || k == 0xFEFF
  }

  /** `\d`: ASCII digits only. */
  predicate IsDigit(c: char) {
    '0' <= c <= '9'
  }

  /** `\w`, the characters on one side of a `\b` word boundary. */
  predicate IsWordChar(c: char) {
    'a' <= c <= 'z' || 'A' <= c <= 'Z' || IsDigit(c) || c == '_'
  }

  /** ASCII lower-casing. For the fixed ASCII words the analyzer compares against
      ("figure", "center", "w:p", "toc", ...) it decides the same as `toLowerCase()`
      and as the `/i` flag of a regular expression without the `u` flag. */
  function Lower(c: char): (d: char)
    ensures 'A' <= c <= 'Z' ==> 'a' <= d <= 'z' && d as int == c as int + 32
    ensures !('A' <= c <= 'Z') ==> d == c
  {
    if 'A' <= c <= 'Z' then (c as int + 32) as char else c
  }

  function LowerStr(s: string): (r: string)
    ensures |r| == |s|
    ensures forall i | 0 <= i < |s| :: r[i] == Lower(s[i])
  {
    seq(|s|, i requires 0 <= i < |s| => Lower(s[i]))
  }

  /** Every character of s[i..j] is in class P. */
  predicate All(s: string, i: nat, j: nat, P: char -> bool)
    requires i <= j <= |s|
  {
    forall k | i <= k < j :: P(s[k])
  }

  /** Length of the longest run of P-characters starting at i (a greedy `P*`). */
  function RunFrom(s: string, i: nat, P: char -> bool): (n: nat)
    requires i <= |s|
    decreases |s| - i
    ensures i + n <= |s|
  {
    if i < |s| && P(s[i]) then 1 + RunFrom(s, i + 1, P) else 0
  }

  /** The greedy run is made of P-characters and stops at the end or at a character outside P. */
  lemma {:induction false} RunFromSpec(s: string, i: nat, P: char -> bool)
    requires i <= |s|
    ensures All(s, i, i + RunFrom(s, i, P), P)
    ensures i + RunFrom(s, i, P) == |s| || !P(s[i + RunFrom(s, i, P)])
    decreases |s| - i
  {
    if i < |s| && P(s[i]) {
      RunFromSpec(s, i + 1, P);
    }
  }

  /** Length of the longest run of P-characters ending just before j. */
  function RunBefore(s: string, j: nat, P: char -> bool): (n: nat)
    requires j <= |s|
    ensures n <= j
  {
    if j > 0 && P(s[j - 1]) then 1 + RunBefore(s, j - 1, P) else 0
  }

  lemma {:induction false} RunBeforeSpec(s: string, j: nat, P: char -> bool)
    requires j <= |s|
    ensures All(s, j - RunBefore(s, j, P), j, P)
    ensures RunBefore(s, j, P) == j || !P(s[j - RunBefore(s, j, P) - 1])
  {
    if j > 0 && P(s[j - 1]) {
      RunBeforeSpec(s, j - 1, P);
    }
  }

  /** A run that is all P and cannot be extended to the right is the greedy run. */
  lemma {:induction false} RunFromExact(s: string, i: nat, j: nat, P: char -> bool)
    requires i <= j <= |s|
    requires All(s, i, j, P) && (j == |s| || !P(s[j]))
    ensures RunFrom(s, i, P) == j - i
    decreases j - i
  {
    if i < j {
      RunFromExact(s, i + 1, j, P);
    }
  }

  /** A run that is all P and cannot be extended to the left is the greedy run. */
  lemma {:induction false} RunBeforeExact(s: string, i: nat, j: nat, P: char -> bool)
    requires i <= j <= |s|
    requires All(s, i, j, P) && (i == 0 || !P(s[i - 1]))
    ensures RunBefore(s, j, P) == j - i
    decreases j - i
  {
    if i < j {
      RunBeforeExact(s, i, j - 1, P);
    }
  }

  /** Drops the leading whitespace of s. */
  function TrimStart(s: string): string {
    s[RunFrom(s, 0, IsSpace)..]
  }

  /** Drops the trailing whitespace of s. */
  function TrimEnd(s: string): string {
    s[..|s| - RunBefore(s, |s|, IsSpace)]
  }

  /** `String.prototype.trim`: whitespace removed from both ends. */
  function Trim(s: string): string {
    TrimStart(TrimEnd(s))
  }

  /** What `trim` returns: the longest infix of s that neither starts nor ends with
      whitespace, with only whitespace cut away around it; empty exactly when s is
      all whitespace. */
  lemma TrimSpec(s: string)
    ensures Trim(s) == [] <==> All(s, 0, |s|, IsSpace)
    ensures Trim(s) != [] ==> !IsSpace(Trim(s)[0]) && !IsSpace(Trim(s)[|Trim(s)| - 1])
    ensures exists a | 0 <= a <= |s| - |Trim(s)| ::
              Trim(s) == s[a..a + |Trim(s)|] && All(s, 0, a, IsSpace) && All(s, a + |Trim(s)|, |s|, IsSpace)
  {
    var e := RunBefore(s, |s|, IsSpace);
    RunBeforeSpec(s, |s|, IsSpace);
    var t := s[..|s| - e];
    var a := RunFrom(t, 0, IsSpace);
    RunFromSpec(t, 0, IsSpace);
    var r := t[a..];
    assert Trim(s) == r;
    assert r == s[a..a + |r|];
    assert All(s, 0, a, IsSpace) by {
      forall k | 0 <= k < a ensures IsSpace(s[k]) { assert s[k] == t[k]; }
    }
    if All(s, 0, |s|, IsSpace) {
      RunBeforeExact(s, 0, |s|, IsSpace);
    }
    assert e < |s| ==> t[|t| - 1] == s[|s| - e - 1];
    if r != [] {
      assert r[0] == t[a];
      assert r[|r| - 1] == s[|s| - e - 1];
    } else {
      assert e == |s|;
    }
  }

  /** The ASCII-lower-case word w occurs in s at position i, ignoring ASCII case. */
  predicate MatchAtCI(s: string, i: nat, w: string)
    decreases |w|
  {
    i + |w| <= |s| && (w == [] || (Lower(s[i]) == w[0] && MatchAtCI(s, i + 1, w[1..])))
  }

  lemma {:induction false} MatchAtCIMeaning(s: string, i: nat, w: string)
    ensures MatchAtCI(s, i, w) <==>
              i + |w| <= |s| && forall k | 0 <= k < |w| :: Lower(s[i + k]) == w[k]
    decreases |w|
  {
    if w != [] && i + |w| <= |s| {
      MatchAtCIMeaning(s, i + 1, w[1..]);
      assert forall k | 1 <= k < |w| :: w[k] == w[1..][k - 1] && s[i + k] == s[(i + 1) + (k - 1)];
    }
  }

  /** w occurs, ignoring ASCII case, at some position from i on. */
  predicate ContainsCIFrom(s: string, w: string, i: nat)
    decreases |s| - i
  {
    i + |w| <= |s| && (MatchAtCI(s, i, w) || (i < |s| && ContainsCIFrom(s, w, i + 1)))
  }

  /** `s.toLowerCase().includes(w)` and the unanchored `/w/i` for an ASCII-lower-case w. */
  predicate ContainsCI(s: string, w: string) {
    ContainsCIFrom(s, w, 0)
  }

  lemma {:induction false} ContainsCIFromMeaning(s: string, w: string, i: nat)
    ensures ContainsCIFrom(s, w, i) <==> exists j | i <= j && j + |w| <= |s| :: MatchAtCI(s, j, w)
    decreases |s| - i
  {
    if i + |w| <= |s| {
      if MatchAtCI(s, i, w) {
        assert exists j | i <= j && j + |w| <= |s| :: MatchAtCI(s, j, w) by {
          assert i <= i && i + |w| <= |s| && MatchAtCI(s, i, w);
        }
      } else {
        assert w != [];
        ContainsCIFromMeaning(s, w, i + 1);
      }
    }
  }

  lemma ContainsCIMeaning(s: string, w: string)
    ensures ContainsCI(s, w) <==> exists j | 0 <= j && j + |w| <= |s| :: MatchAtCI(s, j, w)
  {
    ContainsCIFromMeaning(s, w, 0);
  }
  /** The lower-cased text holds w at i exactly when w matches there ignoring case. */
  lemma LoweredInfix(s: string, i: nat, w: string)
    requires i + |w| <= |s|
    ensures LowerStr(s)[i..i + |w|] == w <==> MatchAtCI(s, i, w)
  {
    MatchAtCIMeaning(s, i, w);
    var l := LowerStr(s)[i..i + |w|];
    assert forall k | 0 <= k < |w| :: l[k] == Lower(s[i + k]);
  }

  /** The lower-cased text holds w at position j. */
  predicate LoweredAt(s: string, j: nat, w: string) {
    j + |w| <= |s| && LowerStr(s)[j..j + |w|] == w
  }

  /** `s.toLowerCase().includes(w)`, read literally (line 144 of insertimagelegend.js),
      agrees with the case-insensitive scan. */
  lemma ContainsCIIsLoweredIncludes(s: string, w: string)
    ensures ContainsCI(s, w) <==> exists j: nat :: LoweredAt(s, j, w)
  {
    ContainsCIMeaning(s, w);
    if ContainsCI(s, w) {
      var j :| 0 <= j && j + |w| <= |s| && MatchAtCI(s, j, w);
      LoweredInfix(s, j, w);
      assert LoweredAt(s, j, w);
    }
    if exists j: nat :: LoweredAt(s, j, w) {
      var j: nat :| LoweredAt(s, j, w);
      LoweredInfix(s, j, w);
      assert 0 <= j && j + |w| <= |s| && MatchAtCI(s, j, w);
    }
  }

  /** `v.toLowerCase() === w` (the comparisons with "center" and "w:p") is a
      case-insensitive match of the whole of v. */
  lemma LowerStrEquals(v: string, w: string)
    ensures LowerStr(v) == w <==> |v| == |w| && MatchAtCI(v, 0, w)
  {
    if |v| == |w| {
      LoweredInfix(v, 0, w);
      assert LowerStr(v)[0..|w|] == LowerStr(v);
    }
  }
}
