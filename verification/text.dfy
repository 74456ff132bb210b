/** Strings as the backend compares, cuts and checks them (server.js:35, 83, 118). */
module Text {

  /** JavaScript's `a < b` on strings: the first differing character decides, and a proper
      prefix comes first. `localeCompare` (server.js:106, 122) is taken to agree with it. */
  predicate Less(a: string, b: string)
  {
    if a == [] then b != []
    else if b == [] then false
    else if a[0] != b[0] then a[0] < b[0]
    else Less(a[1..], b[1..])
  }

  /** JavaScript's `a <= b` on strings, which the language defines as `!(b < a)`. */
  predicate AtMost(a: string, b: string)
  {
    !Less(b, a)
  }

  lemma {:induction false} LessIrreflexive(a: string)
    ensures !Less(a, a)
  {
    if a != [] {
      LessIrreflexive(a[1..]);
    }
  }

  lemma {:induction false} LessTransitive(a: string, b: string, c: string)
    requires Less(a, b) && Less(b, c)
    ensures Less(a, c)
  {
    if a != [] && a[0] == b[0] && b[0] == c[0] {
      LessTransitive(a[1..], b[1..], c[1..]);
    }
  }

  /** Any two strings are ordered one way or the other, or are equal. */
  lemma {:induction false} LessTrichotomy(a: string, b: string)
    ensures Less(a, b) || a == b || Less(b, a)
  {
    if a != [] && b != [] && a[0] == b[0] {
      LessTrichotomy(a[1..], b[1..]);
      if a[1..] == b[1..] {
        assert a == [a[0]] + a[1..] && b == [b[0]] + b[1..];
      }
    }
  }

  lemma LessAsymmetric(a: string, b: string)
    requires Less(a, b)
    ensures !Less(b, a)
  {
    if Less(b, a) {
      LessTransitive(a, b, a);
      LessIrreflexive(a);
    }
  }

  /** `AtMost` is the reflexive closure of `Less`. */
  lemma AtMostIsLessOrEqual(a: string, b: string)
    ensures AtMost(a, b) <==> Less(a, b) || a == b
  {
    LessTrichotomy(a, b);
    LessIrreflexive(a);
    if Less(a, b) {
      LessAsymmetric(a, b);
    }
  }

  /** `String(x).slice(0, n)`: at most the first `n` characters. */
  function Truncate(s: string, n: nat): (r: string)
    ensures |r| == if |s| <= n then |s| else n
    ensures forall i :: 0 <= i < |r| ==> r[i] == s[i]
    ensures |s| <= n ==> r == s
  {
    if |s| <= n then s else s[..n]
  }

  /** The shape the regular expression `\d{4}-\d{2}-\d{2}T\d{2}:\d{2}:\d{2}\.\d{3}Z` matches;
      `#` stands for one decimal digit, every other character for itself. */
  const IsoShape: string := "####-##-##T##:##:##.###Z"

  predicate Fits(shape: char, c: char)
  {
    if shape == '#' then '0' <= c <= '9' else c == shape
  }

  /** The pattern matches `s` starting at position `i`. */
  predicate MatchesAt(s: string, i: int)
  {
    0 <= i && i + |IsoShape| <= |s| &&
    forall k :: 0 <= k < |IsoShape| ==> Fits(IsoShape[k], s[i + k])
  }

  /** Searches for a match starting at `from` or later. */
  function SearchFrom(s: string, from: nat): (found: bool)
    decreases |s| - from
    ensures found <==> exists i :: from <= i && MatchesAt(s, i)
  {
    if from + |IsoShape| > |s| then false
    else MatchesAt(s, from) || SearchFrom(s, from + 1)
  }

  /** `isIso` (server.js:35): `RegExp.test` is a search, so the pattern may sit anywhere in `s`. */
  function IsIso(s: string): (r: bool)
    ensures r <==> exists i :: MatchesAt(s, i)
    ensures r ==> |s| >= |IsoShape|
  {
    SearchFrom(s, 0)
  }

  /** Because the test is unanchored, text around a timestamp does not stop it from passing. */
  lemma IsIsoUnanchored(prefix: string, s: string, suffix: string)
    requires IsIso(s)
    ensures IsIso(prefix + s + suffix)
  {
    var i :| MatchesAt(s, i);
    var t := prefix + s + suffix;
    forall k | 0 <= k < |IsoShape| ensures Fits(IsoShape[k], t[|prefix| + i + k]) {
      assert t[|prefix| + i + k] == s[i + k];
    }
    assert MatchesAt(t, |prefix| + i);
  }

  /** A well-formed instant passes, and so does a digit shape that is no calendar date;
      a timestamp without milliseconds does not. */
  lemma IsIsoExamples()
    ensures IsIso("2024-05-01T12:00:00.000Z")
    ensures IsIso("9999-99-99T99:99:99.999Z")
    ensures !IsIso("2024-05-01T12:00:00Z")
  {
    assert MatchesAt("2024-05-01T12:00:00.000Z", 0);
    assert MatchesAt("9999-99-99T99:99:99.999Z", 0);
  }
}
