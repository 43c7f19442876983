/** Text operations the bot uses on Python strings: `str.upper` and the
    substring test `a in b`, over ASCII. */
module Text {

  function UpperChar(c: char): char
  {
    if 'a' <= c <= 'z' then (c as int - 32) as char else c
  }

  predicate IsUpperCase(s: string)
  {
    forall i | 0 <= i < |s| :: !('a' <= s[i] <= 'z')
  }

  /** ASCII upper-casing, character by character. */
  function Upper(s: string): (r: string)
    ensures |r| == |s|
  {
    if s == [] then [] else [UpperChar(s[0])] + Upper(s[1..])
  }

  /** Each character is upper-cased in place, so the result is upper-case. */
  lemma {:induction false} UpperAt(s: string)
    ensures forall i | 0 <= i < |s| :: Upper(s)[i] == UpperChar(s[i])
    ensures IsUpperCase(Upper(s))
  {
    if s != [] {
      UpperAt(s[1..]);
      assert forall i | 1 <= i < |s| :: Upper(s)[i] == Upper(s[1..])[i - 1];
    }
  }

  /** Upper-casing leaves an upper-case text as it is. */
  lemma UpperOfUpperCase(s: string)
    requires IsUpperCase(s)
    ensures Upper(s) == s
  {
    UpperAt(s);
  }

  /** Upper-casing is idempotent, so a key normalised twice is normalised once. */
  lemma UpperIdempotent(s: string)
    ensures Upper(Upper(s)) == Upper(s)
  {
    UpperAt(s);
    UpperOfUpperCase(Upper(s));
  }

  /** `sub` occurs in `s` starting at position `i`. */
  predicate OccursAt(s: string, sub: string, i: nat)
  {
    i + |sub| <= |s| && s[i..i + |sub|] == sub
  }

  /** `sub in s` for Python strings: `sub` occurs in `s` at some position. */
  predicate Contains(s: string, sub: string): (c: bool)
    ensures c ==> |sub| <= |s|
  {
    exists i: nat | i <= |s| :: OccursAt(s, sub, i)
  }

  /** A text contains every piece it is made of. */
  lemma ContainsPart(a: string, b: string, c: string)
    ensures Contains(a + b + c, b)
  {
    assert (a + b + c)[|a|..|a| + |b|] == b;
    assert OccursAt(a + b + c, b, |a|);
  }

  /** A text cannot contain a piece with a character it lacks. */
  lemma MissingCharNotContained(s: string, sub: string, c: char)
    requires c in sub && c !in s
    ensures !Contains(s, sub)
  {
    var k :| 0 <= k < |sub| && sub[k] == c;
    forall i: nat | i <= |s| ensures !OccursAt(s, sub, i) {
      if i + |sub| <= |s| {
        assert s[i..i + |sub|][k] == s[i + k] != c;
      }
    }
  }

  /** Upper-casing works piece by piece. */
  lemma {:induction false} UpperAppend(a: string, b: string)
    ensures Upper(a + b) == Upper(a) + Upper(b)
  {
    if a != [] {
      assert (a + b)[0] == a[0] && (a + b)[1..] == a[1..] + b;
      UpperAppend(a[1..], b);
      calc {
        Upper(a + b);
        [UpperChar(a[0])] + Upper(a[1..] + b);
        [UpperChar(a[0])] + (Upper(a[1..]) + Upper(b));
        ([UpperChar(a[0])] + Upper(a[1..])) + Upper(b);
      }
    } else {
      assert a + b == b;
    }
  }

  /** An upper-case letter appears in an upper-cased text only where the text
      had that letter in either case. */
  lemma UpperLacks(s: string, c: char)
    requires 'A' <= c <= 'Z'
    requires c !in s && (c as int + 32) as char !in s
    ensures c !in Upper(s)
  {
    UpperAt(s);
    forall i | 0 <= i < |s| ensures Upper(s)[i] != c {
      assert s[i] != c && s[i] != (c as int + 32) as char;
    }
  }

  /** An upper-cased text contains its upper-cased prefixes. */
  lemma ContainsUpperPrefix(s: string, a: string, b: string)
    requires s == a + b
    ensures Contains(Upper(s), Upper(a))
  {
    UpperAppend(a, b);
    var u := Upper(a) + Upper(b);
    assert u[0..|Upper(a)|] == Upper(a);
    assert OccursAt(u, Upper(a), 0);
  }

  /** An upper-cased text contains every upper-case piece it is made of. */
  lemma ContainsUpperPiece(s: string, a: string, b: string, c: string)
    requires s == a + b + c && IsUpperCase(b)
    ensures Contains(Upper(s), b)
  {
    UpperOfUpperCase(b);
    UpperAppend(a + b, c);
    UpperAppend(a, b);
    ContainsPart(Upper(a), b, Upper(c));
  }

  /** An upper-cased text cannot contain a piece with an upper-case letter
      that the text has in neither case. */
  lemma UpperLacksPiece(s: string, sub: string, k: nat, c: char)
    requires 'A' <= c <= 'Z' && k < |sub| && sub[k] == c
    requires c !in s && (c as int + 32) as char !in s
    ensures !Contains(Upper(s), sub)
  {
    UpperLacks(s, c);
    MissingCharNotContained(Upper(s), sub, c);
  }

  /** The same, for an upper-cased piece. */
  lemma UpperLacksUpperPiece(s: string, name: string, k: nat, c: char)
    requires 'A' <= c <= 'Z' && k < |name| && UpperChar(name[k]) == c
    requires c !in s && (c as int + 32) as char !in s
    ensures !Contains(Upper(s), Upper(name))
  {
    UpperAt(name);
    UpperLacksPiece(s, Upper(name), k, c);
  }
}
