/** `validateEmail`: the pattern `^[^\s@]+@[^\s@]+\.[^\s@]+$`. */
module Email {

  /** JavaScript `\s`: the white-space and line-terminator characters of
      ECMAScript (space separators, tab, line feed, vertical tab, form feed,
      carriage return, no-break space, the byte-order mark, the line and
      paragraph separators). */
  predicate IsSpace(c: char) {
    || c == ' ' || c == '\t' || c == '\n' || c == '\r'
    || c == '\U{000B}' || c == '\U{000C}' || c == '\U{00A0}' || c == '\U{1680}'
    || ('\U{2000}' <= c <= '\U{200A}')
    || c == '\U{2028}' || c == '\U{2029}' || c == '\U{202F}' || c == '\U{205F}'
    || c == '\U{3000}' || c == '\U{FEFF}'
  }

  /** The character class `[^\s@]`. */
  predicate Plain(c: char) {
    !IsSpace(c) && c != '@'
  }

  /** `[^\s@]+`: a non-empty run of plain characters. */
  predicate PlainRun(s: string) {
    |s| > 0 && forall i :: 0 <= i < |s| ==> Plain(s[i])
  }

  /** `validateEmail`: the whole text splits as run "@" run "." run. The
      pattern's backtracking may choose any "." of the domain, so the split
      point `b` is existential. */
  function ValidateEmail(s: string): (ok: bool)
    ensures ok ==> |s| >= 5 && s[0] != '@' && s[|s| - 1] != '@'
  {
    var ok :=
      exists a, b :: 0 <= a < b < |s| && s[a] == '@' && s[b] == '.'
        && PlainRun(s[..a]) && PlainRun(s[a + 1..b]) && PlainRun(s[b + 1..]);
    assert ok ==> |s| >= 5 && s[0] != '@' && s[|s| - 1] != '@' by {
      if ok {
        var a, b :| 0 <= a < b < |s| && s[a] == '@' && s[b] == '.'
          && PlainRun(s[..a]) && PlainRun(s[a + 1..b]) && PlainRun(s[b + 1..]);
        assert s[..a][0] == s[0];
        assert s[b + 1..][|s| - b - 2] == s[|s| - 1];
      }
    }
    ok
  }

  /** The shape the pattern accepts, stated without the pattern: no white
      space, exactly one "@" with something before it, and a "." in the domain
      that is neither its first nor its last character. */
  predicate WellShaped(s: string) {
    && (forall i :: 0 <= i < |s| ==> !IsSpace(s[i]))
    && exists a :: 0 < a < |s| && s[a] == '@'
         && (forall j :: 0 <= j < |s| && j != a ==> s[j] != '@')
         && (exists b :: a + 1 < b < |s| - 1 && s[b] == '.')
  }

  lemma ValidateEmailIsWellShaped(s: string)
    ensures ValidateEmail(s) <==> WellShaped(s)
  {
    if ValidateEmail(s) {
      MatchIsWellShaped(s);
    }
    if WellShaped(s) {
      WellShapedMatches(s);
    }
  }

  lemma MatchIsWellShaped(s: string)
    requires ValidateEmail(s)
    ensures WellShaped(s)
  {
    var a, b :| 0 <= a < b < |s| && s[a] == '@' && s[b] == '.'
      && PlainRun(s[..a]) && PlainRun(s[a + 1..b]) && PlainRun(s[b + 1..]);
    Split(s, a, b);
    assert forall j :: 0 <= j < |s| ==> !IsSpace(s[j]) && (j != a ==> s[j] != '@');
  }

  lemma WellShapedMatches(s: string)
    requires WellShaped(s)
    ensures ValidateEmail(s)
  {
    var a :| 0 < a < |s| && s[a] == '@'
       && (forall j :: 0 <= j < |s| && j != a ==> s[j] != '@')
       && (exists b :: a + 1 < b < |s| - 1 && s[b] == '.');
    var b :| a + 1 < b < |s| - 1 && s[b] == '.';
    Split(s, a, b);
  }

  /** The three runs of a split at `a` and `b`, stated position by position. */
  lemma Split(s: string, a: nat, b: nat)
    requires a < b < |s|
    ensures PlainRun(s[..a]) <==> PlainBetween(s, 0, a)
    ensures PlainRun(s[a + 1..b]) <==> PlainBetween(s, a + 1, b)
    ensures PlainRun(s[b + 1..]) <==> PlainBetween(s, b + 1, |s|)
  {
    RunBetween(s, 0, a);
    RunBetween(s, a + 1, b);
    RunBetween(s, b + 1, |s|);
    assert s[..a] == s[0..a];
    assert s[b + 1..] == s[b + 1..|s|];
  }

  /** Positions `lo` to `hi` (exclusive) form a non-empty plain run. */
  predicate PlainBetween(s: string, lo: nat, hi: nat)
    requires hi <= |s|
  {
    lo < hi && forall j :: lo <= j < hi ==> Plain(s[j])
  }

  lemma RunBetween(s: string, lo: nat, hi: nat)
    requires lo <= hi <= |s|
    ensures PlainRun(s[lo..hi]) <==> PlainBetween(s, lo, hi)
  {
    var t := s[lo..hi];
    assert forall j :: lo <= j < hi ==> t[j - lo] == s[j];
  }

  /** A text without "@" is never accepted. */
  lemma NoAtRejected(s: string)
    requires forall i :: 0 <= i < |s| ==> s[i] != '@'
    ensures !ValidateEmail(s)
  {
  }

  lemma EmailExamples()
    ensures ValidateEmail("a@b.co")
    ensures !ValidateEmail("not-an-email")
  {
    var s := "a@b.co";
    assert s[..1] == "a" && s[2..3] == "b" && s[4..] == "co";
    assert s[1] == '@' && s[3] == '.';
    NoAtRejected("not-an-email");
  }
}
