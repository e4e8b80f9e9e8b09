/** The e-mail shape check of the contact form: the regular expression
    `^[^\s@]+@[^\s@]+\.[^\s@]+$`, applied with `test` and no flags.

    The pattern is given here three ways: as the language the expression
    denotes (`MatchesPattern`), as a plain description of that language
    (`WellShaped`), and as a single left-to-right scan (`CheckEmail`). The
    lemmas and the scan's contract tie the three together. */
module EmailPattern {
  import opened Text

  /** The character class `[^\s@]`: neither whitespace nor '@'. */
  predicate Plain(c: char) {
    !IsWs(c) && c != '@'
  }

  /** `s` is a run of `[^\s@]` characters (the `+` adds non-emptiness). */
  predicate AllPlain(s: string) {
    forall i :: 0 <= i < |s| ==> Plain(s[i])
  }

  /** The language of `^[^\s@]+@[^\s@]+\.[^\s@]+$`: some '@' at index `a`
      and some '.' at index `d` cut `s` into three non-empty runs of `[^\s@]`.
      The class admits '.', so any such dot will do (the engine backtracks to
      find one). */
  predicate MatchesPattern(s: string) {
    exists a, d | 0 < a < |s| && a + 1 < d < |s| - 1 ::
      && s[a] == '@' && s[d] == '.'
      && AllPlain(s[..a]) && AllPlain(s[a + 1..d]) && AllPlain(s[d + 1..])
  }

  /** The same language described in words: no whitespace anywhere, exactly
      one '@', something before it, and after it a '.' that is neither the
      first nor the last character of the part after the '@'. */
  predicate WellShaped(s: string) {
    && (forall i :: 0 <= i < |s| ==> !IsWs(s[i]))
    && multiset(s)['@'] == 1
    && exists a | 0 < a < |s| :: s[a] == '@' && exists d | a + 1 < d < |s| - 1 :: s[d] == '.'
  }

  /** Two distinct '@' characters make the count at least two. */
  lemma TwoAts(s: string, a: nat, b: nat)
    requires a < b < |s| && s[a] == '@' && s[b] == '@'
    ensures multiset(s)['@'] >= 2
  {
    assert s == s[..b] + [s[b]] + s[b + 1..];
    assert s[..b][a] == '@';
    assert '@' in multiset(s[..b]);
  }

  /** An '@' that is the only one makes the count exactly one. */
  lemma OneAt(s: string, a: nat)
    requires a < |s| && s[a] == '@'
    requires forall j :: 0 <= j < |s| && j != a ==> s[j] != '@'
    ensures multiset(s)['@'] == 1
  {
    assert s == s[..a] + [s[a]] + s[a + 1..];
    assert '@' !in s[..a];
    assert '@' !in s[a + 1..];
  }

  /** With a count of one, the '@' at `a` is the only one. */
  lemma OnlyAt(s: string, a: nat)
    requires a < |s| && s[a] == '@' && multiset(s)['@'] == 1
    ensures forall j :: 0 <= j < |s| && j != a ==> s[j] != '@'
  {
    forall j | 0 <= j < |s| && j != a
      ensures s[j] != '@'
    {
      if s[j] == '@' {
        if j < a { TwoAts(s, j, a); } else { TwoAts(s, a, j); }
      }
    }
  }

  /** A string the pattern accepts is well shaped. */
  lemma PatternImpliesWellShaped(s: string, a: nat, d: nat)
    requires 0 < a < |s| && a + 1 < d < |s| - 1
    requires s[a] == '@' && s[d] == '.'
    requires AllPlain(s[..a]) && AllPlain(s[a + 1..d]) && AllPlain(s[d + 1..])
    ensures WellShaped(s)
  {
    forall j | 0 <= j < |s| && j != a
      ensures Plain(s[j])
    {
      if j < a { assert s[j] == s[..a][j]; }
      else if j < d { assert s[j] == s[a + 1..d][j - a - 1]; }
      else if j > d { assert s[j] == s[d + 1..][j - d - 1]; }
    }
    OneAt(s, a);
    assert s[a] == '@' && s[d] == '.';
  }

  /** A well-shaped string is accepted by the pattern, cut at its only '@'
      and at any dot placed as the shape demands. */
  lemma WellShapedImpliesPattern(s: string)
    requires WellShaped(s)
    ensures MatchesPattern(s)
  {
    var a :| 0 < a < |s| && s[a] == '@' && exists d | a + 1 < d < |s| - 1 :: s[d] == '.';
    var d :| a + 1 < d < |s| - 1 && s[d] == '.';
    OnlyAt(s, a);
    assert AllPlain(s[..a]);
    assert AllPlain(s[a + 1..d]);
    assert AllPlain(s[d + 1..]);
  }

  /** The regular expression accepts exactly the well-shaped strings. */
  lemma PatternIffWellShaped(s: string)
    ensures MatchesPattern(s) <==> WellShaped(s)
  {
    if MatchesPattern(s) {
      var a, d :| 0 < a < |s| && a + 1 < d < |s| - 1
        && s[a] == '@' && s[d] == '.'
        && AllPlain(s[..a]) && AllPlain(s[a + 1..d]) && AllPlain(s[d + 1..]);
      PatternImpliesWellShaped(s, a, d);
    }
    if WellShaped(s) {
      WellShapedImpliesPattern(s);
    }
  }

  /** One pass over `s` deciding the pattern: it stops at the first
      whitespace or second '@', remembers the '@' and the first '.' that
      could end the middle run, and accepts when both are placed so that
      every run is non-empty. */
  method CheckEmail(s: string) returns (ok: bool)
    ensures ok <==> WellShaped(s)
    ensures ok <==> MatchesPattern(s)
  {
    var at := -1;
    var dot := -1;
    var i := 0;
    while i < |s|
      invariant 0 <= i <= |s|
      invariant forall j :: 0 <= j < i ==> !IsWs(s[j])
      invariant -1 <= at < i
      invariant at == -1 ==> forall j :: 0 <= j < i ==> s[j] != '@'
      invariant at >= 0 ==> s[at] == '@' && forall j :: 0 <= j < i && j != at ==> s[j] != '@'
      invariant dot >= 0 ==> at >= 0 && at + 1 < dot < i && s[dot] == '.'
      invariant dot >= 0 ==> forall j :: at + 1 < j < dot ==> s[j] != '.'
      invariant dot < 0 ==> at >= 0 ==> forall j :: at + 1 < j < i ==> s[j] != '.'
    {
      if IsWs(s[i]) {
        PatternIffWellShaped(s);
        return false;
      }
      if s[i] == '@' {
        if at >= 0 {
          TwoAts(s, at, i);
          PatternIffWellShaped(s);
          return false;
        }
        at := i;
      } else if s[i] == '.' && at >= 0 && i > at + 1 && dot < 0 {
        dot := i;
      }
      i := i + 1;
    }
    ok := at > 0 && 0 <= dot < |s| - 1;
    if at >= 0 {
      OneAt(s, at);
      if ok {
        assert s[at] == '@' && s[dot] == '.';
      }
      if WellShaped(s) {
        var a :| 0 < a < |s| && s[a] == '@' && exists d | a + 1 < d < |s| - 1 :: s[d] == '.';
        assert a == at;
        var d :| a + 1 < d < |s| - 1 && s[d] == '.';
        assert dot >= 0 && dot <= d;
      }
    } else {
      assert '@' !in multiset(s);
    }
    PatternIffWellShaped(s);
  }

  /** A plain address matches. */
  lemma ExampleAccepted()
    ensures MatchesPattern("a@b.c")
  {
    var s := "a@b.c";
    assert s[1] == '@' && s[3] == '.';
    assert AllPlain(s[..1]) && AllPlain(s[2..3]) && AllPlain(s[4..]);
  }

  /** Leading whitespace is not part of any run, so it is rejected even though
      `trim` would remove it. */
  lemma ExampleLeadingSpace()
    ensures !MatchesPattern(" a@b.c")
  {
    PatternIffWellShaped(" a@b.c");
    assert IsWs(" a@b.c"[0]);
  }

  /** A second '@' is rejected. */
  lemma ExampleTwoAts()
    ensures !MatchesPattern("a@b@c.d")
  {
    PatternIffWellShaped("a@b@c.d");
    TwoAts("a@b@c.d", 1, 3);
  }

  /** A dot right after the '@' does not count: the middle run is empty. */
  lemma ExampleDotAfterAt()
    ensures !MatchesPattern("a@.bc")
  {
    var s := "a@.bc";
    PatternIffWellShaped(s);
    assert forall a :: 0 < a < |s| && s[a] == '@' ==> a == 1;
    assert s[3] != '.';
  }
}
