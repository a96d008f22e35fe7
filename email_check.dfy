/**
 * The registration e-mail check: `re.match` of
 *   ^[a-zA-Z0-9._%+-]+@mahindrauniversity\.edu\.in$
 * Python's `$` matches at the very end and also just before one final line
 * feed, so a single trailing "\n" is accepted; the model keeps that.
 */
module EmailCheck {
  import opened Text

  const Domain: string := "@mahindrauniversity.edu.in"

  /** The character class `[a-zA-Z0-9._%+-]` of the local part. */
  predicate IsLocalChar(c: char) {
    IsAsciiLetter(c) || IsDigit(c) || c == '.' || c == '_' || c == '%' || c == '+' || c == '-'
  }

  /** What the pattern says, stated directly: a non-empty local part of
      allowed characters, then the domain, then at most one line feed. */
  ghost predicate EmailShape(s: string) {
    exists k: nat :: 0 < k <= |s| && AllIn(s, 0, k, IsLocalChar)
                     && (s[k..] == Domain || s[k..] == Domain + "\n")
  }

  /** The matcher: the greedy local-part run, then a literal comparison. The
      class run stops at the '@' since '@' is not in the class, so no
      backtracking into it can help. */
  function ValidEmail(s: string): (ok: bool)
    ensures ok ==> || (|s| > |Domain| && s[|s| - |Domain|..] == Domain)
                   || (|s| > |Domain| + 1 && s[|s| - |Domain| - 1..] == Domain + "\n")
  {
    var k := RunEnd(s, 0, IsLocalChar);
    k > 0 && (s[k..] == Domain || s[k..] == Domain + "\n")
  }

  /** The matcher accepts exactly the strings of the stated shape. */
  lemma ValidEmailIffShape(s: string)
    ensures ValidEmail(s) <==> EmailShape(s)
  {
    if EmailShape(s) {
      var k: nat :| 0 < k <= |s| && AllIn(s, 0, k, IsLocalChar)
                    && (s[k..] == Domain || s[k..] == Domain + "\n");
      assert s[k] == '@';
      RunEndUnique(s, 0, k, IsLocalChar);
    }
    if ValidEmail(s) {
      var k := RunEnd(s, 0, IsLocalChar);
      assert 0 < k <= |s| && AllIn(s, 0, k, IsLocalChar);
    }
  }

  lemma DomainHasOneAt()
    ensures CountChar(Domain, '@') == 1
    ensures CountChar(Domain + "\n", '@') == 1
  {
    var tld := "mahindrauniversity.edu.in";
    assert Domain == "@" + tld;
    CountCharAbsent(tld, '@');
    CountCharAppend("@", tld, '@');
    assert CountChar("@", '@') == 1 by { assert "@"[..0] == []; }
    CountCharAbsent("\n", '@');
    CountCharAppend(Domain, "\n", '@');
  }

  /** An accepted address contains exactly one '@'. */
  lemma ValidEmailHasOneAt(s: string)
    requires ValidEmail(s)
    ensures CountChar(s, '@') == 1
  {
    var k := RunEnd(s, 0, IsLocalChar);
    assert s == s[..k] + s[k..];
    CountCharAbsent(s[..k], '@');
    CountCharAppend(s[..k], s[k..], '@');
    DomainHasOneAt();
  }

  /** In `local + Domain + suffix`, the greedy local-part run stops at the '@'. */
  lemma LocalRunStopsAtAt(local: string, suffix: string)
    requires forall k :: 0 <= k < |local| ==> IsLocalChar(local[k])
    ensures var s := local + Domain + suffix;
      RunEnd(s, 0, IsLocalChar) == |local| && s[|local|..] == Domain + suffix
  {
    var s := local + Domain + suffix;
    assert s[|local|] == Domain[0] == '@';
    assert s[..|local|] == local;
    assert AllIn(s, 0, |local|, IsLocalChar);
    RunEndUnique(s, 0, |local|, IsLocalChar);
    assert s[|local|..] == Domain + suffix;
  }

  /** A local part followed by the domain is accepted, with or without one
      trailing line feed, and with two line feeds it is not. */
  lemma ValidEmailOfParts(local: string)
    requires local != [] && forall k :: 0 <= k < |local| ==> IsLocalChar(local[k])
    ensures ValidEmail(local + Domain)
    ensures ValidEmail(local + Domain + "\n")
    ensures !ValidEmail(local + Domain + "\n\n")
  {
    LocalRunStopsAtAt(local, "");
    assert local + Domain + "" == local + Domain;
    LocalRunStopsAtAt(local, "\n");
    LocalRunStopsAtAt(local, "\n\n");
    assert Domain + "\n\n" != Domain + "\n";
  }

  /** An empty local part, or another domain, is refused. */
  lemma RefusedExamples()
    ensures !ValidEmail(Domain)
    ensures !ValidEmail("student@gmail.com")
  {
    assert RunEnd(Domain, 0, IsLocalChar) == 0;
  }
}
