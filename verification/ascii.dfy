/**
 The two string operations the camera heuristic relies on: lower-casing
 (`String.prototype.toLowerCase`, restricted to ASCII letters) and substring
 search (`String.prototype.includes`).
 */
module Ascii {

  /** Lower-cases one character: 'A'..'Z' become 'a'..'z', every other character is kept. */
  function LowerChar(c: char): (r: char)
    ensures !IsUpper(r)
    ensures IsUpper(c) || r == c
  {
    if 'A' <= c <= 'Z' then (c as int + 32) as char else c
  }

  predicate IsUpper(c: char) {
    'A' <= c <= 'Z'
  }

  /** Lower-cases a string character by character. */
  function ToLower(s: string): (r: string)
    ensures |r| == |s|
    ensures forall i :: 0 <= i < |s| ==> r[i] == LowerChar(s[i])
    ensures forall i :: 0 <= i < |r| ==> !IsUpper(r[i])
  {
    if s == [] then [] else [LowerChar(s[0])] + ToLower(s[1..])
  }

  /** Lower-casing a string that is already lower-cased changes nothing. */
  lemma ToLowerIdempotent(s: string)
    ensures ToLower(ToLower(s)) == ToLower(s)
  {
  }

  /** `sub` sits in `s` starting at offset `i`. */
  ghost predicate OccursAt(s: string, sub: string, i: int) {
    0 <= i && i + |sub| <= |s| && s[i..i + |sub|] == sub
  }

  /** Substring search by scanning `s` from the left: `sub` is a prefix of some suffix of `s`. */
  function Includes(s: string, sub: string): (r: bool)
    ensures sub <= s ==> r
    ensures r ==> |sub| <= |s|
    decreases |s|
  {
    if sub <= s then true
    else if |s| == 0 then false
    else Includes(s[1..], sub)
  }

  /** `Includes` holds exactly when `sub` occurs somewhere in `s`; in particular the empty string occurs everywhere. */
  lemma {:induction false} IncludesIffOccurs(s: string, sub: string)
    ensures Includes(s, sub) <==> exists i :: OccursAt(s, sub, i)
    decreases |s|
  {
    if sub <= s {
      assert OccursAt(s, sub, 0);
    } else if |s| == 0 {
      assert forall i :: !OccursAt(s, sub, i);
    } else {
      IncludesIffOccurs(s[1..], sub);
      assert !OccursAt(s, sub, 0);
      forall i | OccursAt(s[1..], sub, i)
        ensures OccursAt(s, sub, i + 1)
      {
        assert s[1..][i..i + |sub|] == s[i + 1..i + 1 + |sub|];
      }
      forall i | OccursAt(s, sub, i)
        ensures OccursAt(s[1..], sub, i - 1)
      {
        assert s[1..][i - 1..i - 1 + |sub|] == s[i..i + |sub|];
      }
    }
  }

  /** `sub` matches `s` at offset `i` when `s` is lower-cased first, i.e. ignoring the case of ASCII letters in `s`. */
  ghost predicate OccursLoweredAt(s: string, sub: string, i: int) {
    0 <= i && i + |sub| <= |s| && forall k :: 0 <= k < |sub| ==> LowerChar(s[i + k]) == sub[k]
  }

  /** Searching the lower-cased string is searching the original one ignoring ASCII case. */
  lemma IncludesLoweredIff(s: string, sub: string)
    ensures Includes(ToLower(s), sub) <==> exists i :: OccursLoweredAt(s, sub, i)
  {
    var t := ToLower(s);
    IncludesIffOccurs(t, sub);
    forall i | OccursAt(t, sub, i)
      ensures OccursLoweredAt(s, sub, i)
    {
      forall k | 0 <= k < |sub|
        ensures LowerChar(s[i + k]) == sub[k]
      {
        assert t[i..i + |sub|][k] == t[i + k];
      }
    }
    forall i | OccursLoweredAt(s, sub, i)
      ensures OccursAt(t, sub, i)
    {
      assert t[i..i + |sub|] == sub;
    }
  }
}
