/**
 A small fragment of regular expressions, just large enough to write down the
 three `@Pattern` constraints of the employee record, together with a
 whole-string matcher. Bean Validation checks a `@Pattern` with
 `Matcher.matches()`, so a pattern must match the ENTIRE value; the `^` and `$`
 anchors of the Java patterns add nothing under that reading and have no
 constructor here.
 */
module Patterns {

  /** An inclusive range of characters, as in `[A-Z]`. */
  datatype CharRange = CharRange(lo: char, hi: char)

  datatype Regex =
    | Eps                                   // matches only the empty string
    | Text(chars: string)                   // exactly the literal characters `chars`
    | Class(ranges: seq<CharRange>)         // one character from any of the ranges
    | Concat(first: Regex, rest: Regex)     // `first` followed by `rest`
    | Alt(left: Regex, right: Regex)        // `left|right`
    | Plus(body: Regex)                     // `body+`
    | Repeat(body: Regex, count: nat)       // `body{count}`

  /** A measure that every sub-pattern the matcher recurses into makes smaller. */
  function Size(r: Regex): nat {
    match r
    case Eps => 1
    case Text(_) => 1
    case Class(_) => 1
    case Concat(a, b) => 1 + Size(a) + Size(b)
    case Alt(a, b) => 1 + Size(a) + Size(b)
    case Plus(a) => 1 + Size(a)
    case Repeat(a, n) => 1 + n + Size(a)
  }

  predicate InClass(c: char, ranges: seq<CharRange>) {
    exists i :: 0 <= i < |ranges| && ranges[i].lo <= c <= ranges[i].hi
  }

  /** True iff the whole of `s` is matched by `r`. */
  predicate Matches(r: Regex, s: string)
    decreases Size(r), |s|
  {
    match r
    case Eps => |s| == 0
    case Text(w) => s == w
    case Class(ranges) => |s| == 1 && InClass(s[0], ranges)
    case Concat(a, b) => exists k :: 0 <= k <= |s| && Matches(a, s[..k]) && Matches(b, s[k..])
    case Alt(a, b) => Matches(a, s) || Matches(b, s)
    case Plus(a) =>
      || Matches(a, s)
      || exists k :: 0 < k < |s| && Matches(a, s[..k]) && Matches(Plus(a), s[k..])
    case Repeat(a, n) =>
      if n == 0 then |s| == 0
      else exists k :: 0 <= k <= |s| && Matches(a, s[..k]) && Matches(Repeat(a, n - 1), s[k..])
  }

  /** Each of the `n` repetitions of a class consumes exactly one character. */
  lemma ClassThenRepeat(ranges: seq<CharRange>, n: nat, s: string)
    requires n > 0
    ensures Matches(Repeat(Class(ranges), n), s)
        <==> |s| >= 1 && InClass(s[0], ranges) && Matches(Repeat(Class(ranges), n - 1), s[1..])
  {
    var c := Class(ranges);
    var rest := Repeat(c, n - 1);
    assert Matches(Repeat(c, n), s)
        <==> exists k :: 0 <= k <= |s| && Matches(c, s[..k]) && Matches(rest, s[k..]);
    if |s| >= 1 && InClass(s[0], ranges) && Matches(rest, s[1..]) {
      assert s[..1] == [s[0]];
      assert Matches(c, s[..1]);
    }
    if Matches(Repeat(c, n), s) {
      var k :| 0 <= k <= |s| && Matches(c, s[..k]) && Matches(rest, s[k..]);
      assert |s[..k]| == 1 && InClass(s[..k][0], ranges);
      assert s[..k][0] == s[0];
    }
  }

  /** A literal run followed by `r` consumes exactly that run. */
  lemma TextThen(w: string, r: Regex, s: string)
    ensures Matches(Concat(Text(w), r), s) <==> |w| <= |s| && s[..|w|] == w && Matches(r, s[|w|..])
  {
    if |w| <= |s| && s[..|w|] == w && Matches(r, s[|w|..]) {
      assert Matches(Text(w), s[..|w|]);
    }
  }

  /** `c{n}` for a class `c` matches exactly the strings of length `n` drawn from the class. */
  lemma {:induction false} RepeatClassMatches(ranges: seq<CharRange>, n: nat, s: string)
    ensures Matches(Repeat(Class(ranges), n), s)
        <==> |s| == n && forall i :: 0 <= i < |s| ==> InClass(s[i], ranges)
    decreases n
  {
    if n > 0 {
      ClassThenRepeat(ranges, n, s);
      if |s| >= 1 {
        RepeatClassMatches(ranges, n - 1, s[1..]);
        if |s| == n && forall i :: 0 <= i < |s| ==> InClass(s[i], ranges) {
          assert forall i :: 0 <= i < |s[1..]| ==> s[1..][i] == s[i + 1];
        }
        if InClass(s[0], ranges) && |s[1..]| == n - 1
           && forall i :: 0 <= i < |s[1..]| ==> InClass(s[1..][i], ranges)
        {
          forall i | 0 <= i < |s|
            ensures InClass(s[i], ranges)
          {
            if i > 0 {
              assert s[i] == s[1..][i - 1];
            }
          }
        }
      }
    }
  }

  /** `c+` for a class `c` matches exactly the non-empty strings drawn from the class. */
  lemma {:induction false} PlusClassMatches(ranges: seq<CharRange>, s: string)
    ensures Matches(Plus(Class(ranges)), s)
        <==> |s| >= 1 && forall i :: 0 <= i < |s| ==> InClass(s[i], ranges)
    decreases |s|
  {
    var c := Class(ranges);
    if Matches(Plus(c), s) {
      if Matches(c, s) {
      } else {
        var k :| 0 < k < |s| && Matches(c, s[..k]) && Matches(Plus(c), s[k..]);
        assert k == 1;
        assert s[..k][0] == s[0];
        PlusClassMatches(ranges, s[1..]);
        forall i | 0 <= i < |s|
          ensures InClass(s[i], ranges)
        {
          if i > 0 {
            assert s[i] == s[1..][i - 1];
          }
        }
      }
    }
    if |s| >= 1 && forall i :: 0 <= i < |s| ==> InClass(s[i], ranges) {
      if |s| == 1 {
        assert Matches(c, s);
      } else {
        assert s[..1] == [s[0]];
        assert Matches(c, s[..1]);
        assert forall i :: 0 <= i < |s[1..]| ==> s[1..][i] == s[i + 1];
        PlusClassMatches(ranges, s[1..]);
        assert Matches(Plus(c), s[1..]);
      }
    }
  }
}
