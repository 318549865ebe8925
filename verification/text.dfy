/** The three string helpers the store relies on: `trim`, `toLowerCase` and `includes`. */
module Text {

  /** ECMAScript white space and line terminators, the characters `String.prototype.trim` strips. */
  function IsSpace(c: char): (b: bool)
    ensures c as int < 128 ==> (b <==> c == ' ' || '\t' <= c <= '\r')
  {
    || c == ' ' || c == '\t' || c == '\n' || c == '\r'
    || c == '\U{000B}' || c == '\U{000C}' || c == '\U{00A0}' || c == '\U{1680}'
    || ('\U{2000}' <= c <= '\U{200A}')
    || c == '\U{2028}' || c == '\U{2029}' || c == '\U{202F}' || c == '\U{205F}'
    || c == '\U{3000}' || c == '\U{FEFF}'
  }

  predicate AllSpace(s: string)
  {
    forall i :: 0 <= i < |s| ==> IsSpace(s[i])
  }

  /** Number of white-space characters at the start of `s`. */
  function LeadingSpaces(s: string): (n: nat)
    ensures n <= |s|
    ensures forall k :: 0 <= k < n ==> IsSpace(s[k])
    ensures n < |s| ==> !IsSpace(s[n])
    decreases |s|
  {
    if |s| > 0 && IsSpace(s[0]) then 1 + LeadingSpaces(s[1..]) else 0
  }

  /** Length of `s` once its white-space suffix is cut off. */
  function EndOfText(s: string): (n: nat)
    ensures n <= |s|
    ensures forall k :: n <= k < |s| ==> IsSpace(s[k])
    ensures n > 0 ==> !IsSpace(s[n - 1])
    decreases |s|
  {
    if |s| > 0 && IsSpace(s[|s| - 1]) then EndOfText(s[..|s| - 1]) else |s|
  }

  /** `r` sits at offset `i` of `s` with only white space around it. */
  predicate TrimmedAt(s: string, r: string, i: int)
  {
    && 0 <= i && i + |r| <= |s| && r == s[i..i + |r|]
    && (forall k :: 0 <= k < i ==> IsSpace(s[k]))
    && (forall k :: i + |r| <= k < |s| ==> IsSpace(s[k]))
  }

  /** `s.trim()`: the middle of `s` between a white-space prefix and a white-space suffix. */
  function Trim(s: string): (r: string)
    ensures |r| == 0 <==> AllSpace(s)
    ensures |r| > 0 ==> !IsSpace(r[0]) && !IsSpace(r[|r| - 1])
    ensures exists i :: TrimmedAt(s, r, i)
  {
    var a := LeadingSpaces(s);
    if a == |s| then
      assert TrimmedAt(s, [], 0);
      []
    else
      var b := EndOfText(s);
      assert a < b;
      assert TrimmedAt(s, s[a..b], a);
      s[a..b]
  }

  /** Trimming twice is trimming once. */
  lemma TrimIdempotent(s: string)
    ensures Trim(Trim(s)) == Trim(s)
  {
    var r := Trim(s);
    if |r| > 0 {
      assert LeadingSpaces(r) == 0;
      assert EndOfText(r) == |r|;
      assert r[0..|r|] == r;
    }
  }

  /** The ASCII case fold of `toLowerCase`: `A`..`Z` become `a`..`z`, everything else is kept. */
  function LowerChar(c: char): (d: char)
    ensures 'A' <= c <= 'Z' ==> 'a' <= d <= 'z' && d as int - c as int == 32
    ensures !('A' <= c <= 'Z') ==> d == c
  {
    if 'A' <= c <= 'Z' then (c as int + 32) as char else c
  }

  /** `s.toLowerCase()`, folding each character on its own. */
  function Lower(s: string): (r: string)
    ensures |r| == |s|
    ensures forall i :: 0 <= i < |s| ==> r[i] == LowerChar(s[i])
    decreases |s|
  {
    if |s| == 0 then [] else [LowerChar(s[0])] + Lower(s[1..])
  }

  /** A lower-cased string has no upper-case ASCII letter left, so lower-casing again changes nothing. */
  lemma LowerIdempotent(s: string)
    ensures forall i :: 0 <= i < |s| ==> !('A' <= Lower(s)[i] <= 'Z')
    ensures Lower(Lower(s)) == Lower(s)
  {
  }

  predicate IsPrefix(p: string, t: string)
  {
    |p| <= |t| && t[..|p|] == p
  }

  /** `t.includes(p)`: `p` occurs in `t` starting at some position. */
  function IsInfix(p: string, t: string): (b: bool)
    ensures b ==> |p| <= |t|
    ensures |p| == 0 ==> b
    decreases |t|
  {
    IsPrefix(p, t) || (|t| > 0 && IsInfix(p, t[1..]))
  }

  predicate OccursAt(p: string, t: string, k: int)
  {
    0 <= k && k + |p| <= |t| && t[k..k + |p|] == p
  }

  /** `p` occurs in `t` at some position. */
  ghost predicate Occurs(p: string, t: string)
  {
    exists k :: OccursAt(p, t, k)
  }

  /** `includes` agrees with the positional reading: some window of `t` equals `p`. */
  lemma {:induction false} InfixIffOccurs(p: string, t: string)
    ensures IsInfix(p, t) <==> exists k :: OccursAt(p, t, k)
    decreases |t|
  {
    if IsPrefix(p, t) {
      assert OccursAt(p, t, 0);
    } else if |t| > 0 {
      InfixIffOccurs(p, t[1..]);
      if IsInfix(p, t[1..]) {
        var k :| OccursAt(p, t[1..], k);
        assert t[1..][k..k + |p|] == t[k + 1..k + 1 + |p|];
        assert OccursAt(p, t, k + 1);
      }
      if k :| OccursAt(p, t, k) {
        assert k != 0;
        assert t[1..][k - 1..k - 1 + |p|] == t[k..k + |p|];
        assert OccursAt(p, t[1..], k - 1);
      }
    }
  }

}
