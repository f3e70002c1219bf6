/**
 * The email format check of the get-started forms: `validateEmail` tests its
 * argument against the pattern `^[^\s@]+@[^\s@]+\.[^\s@]+$`.
 *
 * `MatchesPattern` is the language of that pattern, written out; `ValidateEmail`
 * is an executable check that looks for the first `@` and inspects both sides.
 * The two are proved equal, and the check is then characterised in the terms a
 * reader expects of an address: exactly one `@`, no white space, a non-empty
 * local part, and a dot inside the domain part.
 */
module EmailFormat {
  import opened Optional

  /** The characters JavaScript's `\s` class matches: its WhiteSpace and LineTerminator code points. */
  predicate IsSpace(c: char) {
    || '\t' <= c <= '\r'
    || c == ' ' || c == '\U{00A0}' || c == '\U{1680}'
    || '\U{2000}' <= c <= '\U{200A}'
    || c == '\U{2028}' || c == '\U{2029}' || c == '\U{202F}' || c == '\U{205F}'
    || c == '\U{3000}' || c == '\U{FEFF}'
  }

  /** The character class `[^\s@]`. */
  predicate InClass(c: char) {
    !IsSpace(c) && c != '@'
  }

  predicate AllInClass(t: string) {
    forall k :: 0 <= k < |t| ==> InClass(t[k])
  }

  /** The strings the pattern accepts: `[^\s@]+`, then `@`, then `[^\s@]+`, then `.`, then `[^\s@]+`, and nothing more. */
  ghost predicate MatchesPattern(s: string) {
    exists i, k ::
      && 0 < i && i + 1 < k && k + 1 < |s|
      && s[i] == '@' && s[k] == '.'
      && AllInClass(s[..i]) && AllInClass(s[i + 1..k]) && AllInClass(s[k + 1..])
  }

  /** The position of the first occurrence of `c` in `s`, if any. */
  function FirstIndexOf(s: string, c: char): (r: Option<nat>)
    ensures r.Some? ==> r.value < |s| && s[r.value] == c
    ensures r.Some? ==> forall k :: 0 <= k < r.value ==> s[k] != c
    ensures r.None? ==> forall k :: 0 <= k < |s| ==> s[k] != c
  {
    if |s| == 0 then None
    else if s[0] == c then Some(0)
    else
      match FirstIndexOf(s[1..], c)
      case None => None
      case Some(j) => Some(j + 1)
  }

  /** A `.` with at least one character before and after it. */
  predicate HasInnerDot(d: string) {
    exists k :: 0 < k < |d| - 1 && d[k] == '.'
  }

  /** `validateEmail(email)`: the text before the first `@` and the text after it are checked separately. */
  function ValidateEmail(s: string): bool {
    match FirstIndexOf(s, '@')
    case None => false
    case Some(i) =>
      var local, domain := s[..i], s[i + 1..];
      |local| > 0 && AllInClass(local) && AllInClass(domain) && HasInnerDot(domain)
  }

  lemma FirstIndexOfIs(s: string, c: char, i: nat)
    requires i < |s| && s[i] == c
    requires forall k :: 0 <= k < i ==> s[k] != c
    ensures FirstIndexOf(s, c) == Some(i)
  {
  }

  lemma AllInClassConcat(a: string, b: string)
    requires AllInClass(a) && AllInClass(b)
    ensures AllInClass(a + b)
  {
    forall j | 0 <= j < |a + b| ensures InClass((a + b)[j]) {
      if j < |a| {
        assert (a + b)[j] == a[j];
      } else {
        assert (a + b)[j] == b[j - |a|];
      }
    }
  }

  lemma PatternWitness(s: string, i: nat, k: nat)
    requires 0 < i && i + 1 < k && k + 1 < |s|
    requires s[i] == '@' && s[k] == '.'
    requires AllInClass(s[..i]) && AllInClass(s[i + 1..k]) && AllInClass(s[k + 1..])
    ensures MatchesPattern(s)
  {
  }

  lemma {:induction false} ValidImpliesPattern(s: string)
    requires ValidateEmail(s)
    ensures MatchesPattern(s)
  {
    var i := FirstIndexOf(s, '@').value;
    var domain := s[i + 1..];
    var k :| 0 < k < |domain| - 1 && domain[k] == '.';
    var j := i + 1 + k;
    assert s[i + 1..j] == domain[..k];
    assert s[j + 1..] == domain[k + 1..];
    PatternWitness(s, i, j);
  }

  /** The text after the `@` of a matching string is all class characters with a dot inside it. */
  lemma DomainOfMatch(s: string, i: nat, k: nat)
    requires i + 1 < k && k + 1 < |s| && s[k] == '.'
    requires AllInClass(s[i + 1..k]) && AllInClass(s[k + 1..])
    ensures AllInClass(s[i + 1..]) && HasInnerDot(s[i + 1..])
  {
    var domain := s[i + 1..];
    assert domain == s[i + 1..k] + ['.'] + s[k + 1..];
    assert InClass('.');
    AllInClassConcat(s[i + 1..k], ['.']);
    AllInClassConcat(s[i + 1..k] + ['.'], s[k + 1..]);
    assert domain[k - (i + 1)] == '.';
  }

  /** The `@` of a matching string is its first one. */
  lemma AtOfMatch(s: string, i: nat)
    requires i < |s| && s[i] == '@' && AllInClass(s[..i])
    ensures FirstIndexOf(s, '@') == Some(i)
  {
    forall j | 0 <= j < i ensures s[j] != '@' {
      assert s[j] == s[..i][j];
    }
    FirstIndexOfIs(s, '@', i);
  }

  lemma {:induction false} PatternImpliesValid(s: string)
    requires MatchesPattern(s)
    ensures ValidateEmail(s)
  {
    var i, k :|
      && 0 < i && i + 1 < k && k + 1 < |s|
      && s[i] == '@' && s[k] == '.'
      && AllInClass(s[..i]) && AllInClass(s[i + 1..k]) && AllInClass(s[k + 1..]);
    AtOfMatch(s, i);
    DomainOfMatch(s, i, k);
  }

  /** The executable check accepts exactly the strings the pattern accepts. */
  lemma {:induction false} ValidateEmailMatchesPattern(s: string)
    ensures ValidateEmail(s) <==> MatchesPattern(s)
  {
    if ValidateEmail(s) {
      ValidImpliesPattern(s);
    }
    if MatchesPattern(s) {
      PatternImpliesValid(s);
    }
  }

  /** The number of occurrences of `c` in `s`. */
  function CountOf(s: string, c: char): nat {
    if |s| == 0 then 0 else (if s[0] == c then 1 else 0) + CountOf(s[1..], c)
  }

  lemma {:induction false} CountOfConcat(a: string, b: string, c: char)
    ensures CountOf(a + b, c) == CountOf(a, c) + CountOf(b, c)
  {
    if |a| > 0 {
      assert (a + b)[1..] == a[1..] + b;
      CountOfConcat(a[1..], b, c);
    } else {
      assert a + b == b;
    }
  }

  lemma {:induction false} CountOfZero(s: string, c: char)
    ensures CountOf(s, c) == 0 <==> forall k :: 0 <= k < |s| ==> s[k] != c
  {
    if |s| > 0 {
      CountOfZero(s[1..], c);
      assert forall k :: 1 <= k < |s| ==> s[k] == s[1..][k - 1];
    }
  }

  predicate NoSpace(s: string) {
    forall k :: 0 <= k < |s| ==> !IsSpace(s[k])
  }

  /** Splitting `s` at position `i` into the text before it, `s[i]` and the text after it. */
  lemma {:induction false} CountOfSplit(s: string, i: nat, c: char)
    requires i < |s|
    ensures CountOf(s, c) == CountOf(s[..i], c) + (if s[i] == c then 1 else 0) + CountOf(s[i + 1..], c)
  {
    assert s == s[..i] + [s[i]] + s[i + 1..];
    CountOfConcat(s[..i] + [s[i]], s[i + 1..], c);
    CountOfConcat(s[..i], [s[i]], c);
    assert [s[i]][1..] == [];
  }

  /** The shape a reader expects of an address. */
  predicate OneAtNoSpaceInnerDot(s: string) {
    && CountOf(s, '@') == 1
    && NoSpace(s)
    && exists i :: 0 < i < |s| && s[i] == '@' && HasInnerDot(s[i + 1..])
  }

  lemma {:induction false} ValidImpliesShape(s: string)
    requires ValidateEmail(s)
    ensures OneAtNoSpaceInnerDot(s)
  {
    var i := FirstIndexOf(s, '@').value;
    var local, domain := s[..i], s[i + 1..];
    CountOfSplit(s, i, '@');
    CountOfZero(local, '@');
    CountOfZero(domain, '@');
    forall k | 0 <= k < |s| ensures !IsSpace(s[k]) {
      if k < i {
        assert s[k] == local[k];
      } else if k > i {
        assert s[k] == domain[k - (i + 1)];
      }
    }
  }

  lemma {:induction false} ShapeImpliesValid(s: string)
    requires OneAtNoSpaceInnerDot(s)
    ensures ValidateEmail(s)
  {
    var i :| 0 < i < |s| && s[i] == '@' && HasInnerDot(s[i + 1..]);
    var local, domain := s[..i], s[i + 1..];
    CountOfSplit(s, i, '@');
    CountOfZero(local, '@');
    CountOfZero(domain, '@');
    forall k | 0 <= k < i ensures s[k] != '@' {
      assert s[k] == local[k];
    }
    FirstIndexOfIs(s, '@', i);
    forall k | 0 <= k < |local| ensures InClass(local[k]) {
      assert local[k] == s[k];
    }
    forall k | 0 <= k < |domain| ensures InClass(domain[k]) {
      assert domain[k] == s[i + 1 + k];
    }
  }

  /**
   * An address passes exactly when it holds one `@` and no white space, the `@`
   * is not the first character, and the text after it has a `.` that is neither
   * its first nor its last character.
   */
  lemma {:induction false} ValidateEmailCharacterisation(s: string)
    ensures ValidateEmail(s) <==> OneAtNoSpaceInnerDot(s)
  {
    if ValidateEmail(s) {
      ValidImpliesShape(s);
    }
    if OneAtNoSpaceInnerDot(s) {
      ShapeImpliesValid(s);
    }
  }

  /** Addresses of the minimal shape and of the usual shape are accepted. */
  lemma PatternAccepts()
    ensures MatchesPattern("a@b.c")
    ensures MatchesPattern("user@example.com")
  {
    var s := "a@b.c";
    assert s[..1] == "a" && s[2..3] == "b" && s[4..] == "c";
    PatternWitness(s, 1, 3);
    var u := "user@example.com";
    assert u[..4] == "user" && u[5..12] == "example" && u[13..] == "com";
    PatternWitness(u, 4, 12);
  }

  /** Empty, `@`-less, dot-less and dot-at-an-end inputs are rejected. */
  lemma PatternRejectsMalformed()
    ensures !MatchesPattern("")
    ensures !MatchesPattern("bad-email")
    ensures !MatchesPattern("a@b")
    ensures !MatchesPattern("a@.c")
    ensures !MatchesPattern("a@b.")
  {
  }

  /** White space in the local part rejects an address. */
  lemma PatternRejectsSpace()
    ensures !MatchesPattern("a b@c.d")
  {
    var s := "a b@c.d";
    FirstIndexOfIs(s, '@', 3);
    assert IsSpace(s[..3][1]);
    ValidateEmailMatchesPattern(s);
  }

  /** A second `@` rejects an address. */
  lemma PatternRejectsSecondAt()
    ensures !MatchesPattern("a@b@c.d")
  {
    var s := "a@b@c.d";
    FirstIndexOfIs(s, '@', 1);
    assert s[2..][1] == '@';
    ValidateEmailMatchesPattern(s);
  }
}
