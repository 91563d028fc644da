/** The contact form's email check, `/^[^\s@]+@[^\s@]+\.[^\s@]+$/`, and
    the plain description of the strings it accepts. */
module Email {
  import opened Text

  /** The character class `[^\s@]`. */
  predicate InClass(c: char) {
    !IsSpace(c) && c != '@'
  }

  predicate AllInClass(s: string) {
    forall k :: 0 <= k < |s| ==> InClass(s[k])
  }

  /** The regex matches `s` with its `@` at index `i` and the literal `.`
      at index `j`: three non-empty runs of `[^\s@]` around them. */
  predicate MatchesAt(s: string, i: int, j: int) {
    && 0 < i && i + 1 < j && j + 1 < |s|
    && s[i] == '@' && s[j] == '.'
    && AllInClass(s[..i]) && AllInClass(s[i + 1..j]) && AllInClass(s[j + 1..])
  }

  /** `emailRegex.test(s)`: some placement of `@` and `.` matches. */
  predicate RegexTest(s: string) {
    exists i, j | 0 <= i < |s| && 0 <= j < |s| :: MatchesAt(s, i, j)
  }

  /** The index of the first `@`. */
  function AtIndex(s: string): (r: nat)
    requires '@' in s
    ensures r < |s| && s[r] == '@' && '@' !in s[..r]
  {
    if s[0] == '@' then 0 else 1 + AtIndex(s[1..])
  }

  /** A `.` with at least one character on each side. */
  predicate HasInnerDot(d: string) {
    exists k | 0 < k < |d| - 1 :: d[k] == '.'
  }

  /** The accepted addresses, described without the regex: no whitespace,
      exactly one `@`, something before it, and after it a domain with a
      `.` that is neither its first nor its last character. */
  predicate IsEmail(s: string) {
    && (forall k :: 0 <= k < |s| ==> !IsSpace(s[k]))
    && multiset(s)['@'] == 1
    && 0 < AtIndex(s)
    && HasInnerDot(s[AtIndex(s) + 1..])
  }

  /** Two `@` at different places make the count at least two. */
  lemma TwoAtsCount(s: string, a: nat, b: nat)
    requires a < b < |s| && s[a] == '@' && s[b] == '@'
    ensures multiset(s)['@'] >= 2
  {
    assert s == s[..a] + [s[a]] + s[a + 1..b] + [s[b]] + s[b + 1..];
  }

  /** A match fixes the whole shape of the string. */
  lemma MatchIsEmail(s: string, i: int, j: int)
    requires MatchesAt(s, i, j)
    ensures IsEmail(s)
  {
    var a, b, c := s[..i], s[i + 1..j], s[j + 1..];
    assert s == a + ['@'] + b + ['.'] + c;
    assert '@' !in a && '@' !in b && '@' !in c by {
      assert forall k :: 0 <= k < |a| ==> InClass(a[k]);
      assert forall k :: 0 <= k < |b| ==> InClass(b[k]);
      assert forall k :: 0 <= k < |c| ==> InClass(c[k]);
    }
    assert multiset(s)['@'] == 1;
    forall k | 0 <= k < |s| ensures !IsSpace(s[k]) {
      if k < i {
        assert s[k] == a[k];
      } else if i < k < j {
        assert s[k] == b[k - i - 1];
      } else if j < k {
        assert s[k] == c[k - j - 1];
      }
    }
    assert AtIndex(s) == i;
    var d := s[i + 1..];
    assert d[j - i - 1] == '.';
  }

  /** An address of the described shape is matched with its only `@` and
      any inner `.` of the domain. */
  lemma EmailMatches(s: string)
    requires IsEmail(s)
    ensures RegexTest(s)
  {
    var i := AtIndex(s);
    var d := s[i + 1..];
    var k :| 0 < k < |d| - 1 && d[k] == '.';
    var j := i + 1 + k;
    assert s[j] == '.';
    forall m | 0 <= m < |s| && m != i ensures s[m] != '@' {
      if m < i {
        assert s[m] == s[..i][m];
      } else if s[m] == '@' {
        TwoAtsCount(s, i, m);
      }
    }
    assert AllInClass(s[..i]);
    assert AllInClass(s[i + 1..j]);
    assert AllInClass(s[j + 1..]);
    assert MatchesAt(s, i, j);
  }

  /** The regex accepts exactly the described addresses. */
  lemma RegexIffEmail(s: string)
    ensures RegexTest(s) <==> IsEmail(s)
  {
    if RegexTest(s) {
      var i, j :| 0 <= i < |s| && 0 <= j < |s| && MatchesAt(s, i, j);
      MatchIsEmail(s, i, j);
    }
    if IsEmail(s) {
      EmailMatches(s);
    }
  }

  /** An address without `@` is refused. */
  lemma NoAtRejected(s: string)
    requires s == "not-an-email"
    ensures !RegexTest(s) && !IsEmail(s)
  {
    NoAt(s);
    RegexIffEmail(s);
  }

  lemma NoAt(s: string)
    requires s == "not-an-email"
    ensures '@' !in s
  {
    assert s == "not-an" + "-email";
  }

  /** An address whose dot ends the domain is refused. */
  lemma TrailingDotRejected(s: string)
    requires s == "a@b."
    ensures !RegexTest(s) && !IsEmail(s)
  {
    RegexIffEmail(s);
  }

  /** An address without a dot in its domain is refused, although the
      browser's own check for email inputs lets it through. */
  lemma DotlessDomainRejected(s: string)
    requires s == "a@b"
    ensures !RegexTest(s) && !IsEmail(s)
  {
    RegexIffEmail(s);
  }

  /** The shortest well-formed address is accepted. */
  lemma ShortestAccepted(s: string)
    requires s == "a@b.c"
    ensures RegexTest(s) && IsEmail(s)
  {
    assert MatchesAt(s, 1, 3);
    RegexIffEmail(s);
  }
}
