/** Edit distance and ASCII lower-casing, the two string operations behind
    the title comparison of the linking step. */
module Levenshtein {

  function Min3(a: nat, b: nat, c: nat): (m: nat)
    ensures m <= a && m <= b && m <= c
    ensures m == a || m == b || m == c
  {
    if a <= b && a <= c then a else if b <= c then b else c
  }

  function Max(a: nat, b: nat): nat { if a < b then b else a }

  /** The standard recursive definition of the Levenshtein distance: unit-cost
      deletion, insertion and substitution, matching characters cost nothing.
      It never exceeds the longer string's length (substitute along the
      shorter one, insert the rest) and is at least the difference of the
      lengths. */
  function Distance(a: string, b: string): (d: nat)
    ensures d <= Max(|a|, |b|)
    ensures |a| - |b| <= d && |b| - |a| <= d
    decreases |a| + |b|
  {
    if |a| == 0 then |b|
    else if |b| == 0 then |a|
    else Min3(Distance(a[1..], b) + 1,
              Distance(a, b[1..]) + 1,
              Distance(a[1..], b[1..]) + (if a[0] == b[0] then 0 else 1))
  }

  /** A string is at distance zero from itself. */
  lemma {:induction false} DistanceSelf(s: string)
    ensures Distance(s, s) == 0
  {
    if |s| > 0 {
      DistanceSelf(s[1..]);
    }
  }

  /** Distance zero means equal strings, and only then. */
  lemma {:induction false} DistanceZeroIff(a: string, b: string)
    ensures Distance(a, b) == 0 <==> a == b
    decreases |a| + |b|
  {
    if |a| > 0 && |b| > 0 {
      DistanceZeroIff(a[1..], b[1..]);
      assert a == [a[0]] + a[1..] && b == [b[0]] + b[1..];
    }
  }

  /** The distance does not depend on the order of its arguments. */
  lemma {:induction false} DistanceSymmetric(a: string, b: string)
    ensures Distance(a, b) == Distance(b, a)
    decreases |a| + |b|
  {
    if |a| > 0 && |b| > 0 {
      DistanceSymmetric(a[1..], b);
      DistanceSymmetric(a, b[1..]);
      DistanceSymmetric(a[1..], b[1..]);
    }
  }

  predicate IsUpper(c: char) { 'A' <= c <= 'Z' }

  /** str.lower() restricted to ASCII: upper-case letters move down by 32. */
  function LowerChar(c: char): (d: char)
    ensures !IsUpper(d)
    ensures !IsUpper(c) ==> d == c
    ensures IsUpper(c) ==> 'a' <= d <= 'z' && d as int - c as int == 32
  {
    if IsUpper(c) then (c as int + 32) as char else c
  }

  /** Lower-cases a whole string, character by character. */
  function Lower(s: string): (r: string)
    ensures |r| == |s|
    ensures forall i :: 0 <= i < |r| ==> !IsUpper(r[i])
    ensures forall i :: 0 <= i < |s| && !IsUpper(s[i]) ==> r[i] == s[i]
    ensures forall i :: 0 <= i < |s| && IsUpper(s[i]) ==> r[i] as int == s[i] as int + 32
  {
    seq(|s|, i requires 0 <= i < |s| => LowerChar(s[i]))
  }

  /** Lower-casing twice is lower-casing once. */
  lemma LowerIdempotent(s: string)
    ensures Lower(Lower(s)) == Lower(s)
  {
  }
}
