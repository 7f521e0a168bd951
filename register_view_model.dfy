/** The data-annotation rules of the registration form, and the email pattern
    `^[^@\s]+@[^@\s]+\.[^@\s]+$` that the doctor, change-email and forgot-password forms
    carry as well. */
module RegisterViewModel {
  import opened Linq

  /** .NET regex `\s`, which is also the set `char.IsWhiteSpace` accepts: tab, line feed,
      vertical tab, form feed, carriage return, next line (U+0085) and the Unicode space,
      line and paragraph separators. */
  predicate IsWhitespace(c: char) {
    || c == ' ' || c == '\t' || c == '\n' || c == '\U{000B}' || c == '\U{000C}' || c == '\r'
    || c == '\U{0085}' || c == '\U{00A0}' || c == '\U{1680}'
    || ('\U{2000}' <= c <= '\U{200A}')
    || c == '\U{2028}' || c == '\U{2029}' || c == '\U{202F}' || c == '\U{205F}' || c == '\U{3000}'
  }

  /** `string.IsNullOrWhiteSpace` (a null string is modelled as ""). */
  predicate IsNullOrWhiteSpace(s: string) {
    forall k :: 0 <= k < |s| ==> IsWhitespace(s[k])
  }

  /** `[Required]` on a string: null, empty and whitespace-only values fail. */
  predicate Required(s: string) {
    !IsNullOrWhiteSpace(s)
  }

  /** One regex atom `[^@\s]`. */
  predicate PlainChar(c: char) {
    c != '@' && !IsWhitespace(c)
  }

  /** `[^@\s]+` matches the whole of `t`. */
  predicate Plain(t: string) {
    |t| > 0 && forall k :: 0 <= k < |t| ==> PlainChar(t[k])
  }

  /** The pattern, read as a grammar: some split of `s` into `local @ host . tld`
      with every part a non-empty run of plain characters. */
  ghost predicate MatchesEmailRegex(s: string) {
    exists i, j :: 0 <= i < j < |s| && MatchesAt(s, i, j)
  }

  /** The split at `@` index `i` and `.` index `j` matches the pattern. */
  predicate MatchesAt(s: string, i: int, j: int)
    requires 0 <= i < j < |s|
  {
    Plain(s[..i]) && s[i] == '@' && Plain(s[i + 1..j]) && s[j] == '.' && Plain(s[j + 1..])
  }

  /** A domain part the pattern's `[^@\s]+\.[^@\s]+` accepts: plain characters and a dot
      that is neither first nor last. */
  predicate IsDomain(d: string) {
    (forall k :: 0 <= k < |d| ==> d[k] == '.' || PlainChar(d[k]))
    && exists j :: 0 < j < |d| - 1 && d[j] == '.'
  }

  /** The pattern decided directly: `s` has an `@` after a non-empty run of plain characters,
      and what follows the first `@` is a domain. */
  predicate IsEmailFormat(s: string) {
    match FirstIndex(s, (c: char) => c == '@')
    case None => false
    case Some(i) => Plain(s[..i]) && IsDomain(s[i + 1..])
  }

  /** A '.' is a plain character, so the domain parts around a chosen dot are runs of plain
      characters. */
  lemma DomainSplit(d: string, j: int)
    requires IsDomain(d) && 0 < j < |d| - 1 && d[j] == '.'
    ensures Plain(d[..j]) && Plain(d[j + 1..])
  {
  }

  /** The decision procedure agrees with the pattern on every string. */
  lemma {:induction false} EmailFormatMatchesRegex(s: string)
    ensures IsEmailFormat(s) <==> MatchesEmailRegex(s)
  {
    var at := FirstIndex(s, (c: char) => c == '@');
    if IsEmailFormat(s) {
      var i := at.value;
      var d := s[i + 1..];
      var j :| 0 < j < |d| - 1 && d[j] == '.';
      DomainSplit(d, j);
      assert d[..j] == s[i + 1..i + 1 + j];
      assert d[j + 1..] == s[i + 1 + j + 1..];
      assert MatchesAt(s, i, i + 1 + j);
    }
    if MatchesEmailRegex(s) {
      var i, j :| 0 <= i < j < |s| && MatchesAt(s, i, j);
      forall k | 0 <= k < i ensures s[k] != '@' {
        assert s[k] == s[..i][k];
      }
      assert at == Some(i);
      var d := s[i + 1..];
      forall k | 0 <= k < |d| ensures d[k] == '.' || PlainChar(d[k]) {
        if k < j - i - 1 {
          assert d[k] == s[i + 1..j][k];
        } else if k > j - i - 1 {
          assert d[k] == s[j + 1..][k - (j - i)];
        }
      }
      assert d[j - i - 1] == '.';
    }
  }

  /** `[RegularExpression]`: an empty (or null) value passes, anything else must match the
      pattern as a whole. */
  predicate RegexAttributeAccepts(s: string) {
    s == "" || IsEmailFormat(s)
  }

  /** An email field carrying `[Required]` and the pattern. */
  predicate EmailFieldValid(s: string) {
    Required(s) && RegexAttributeAccepts(s)
  }

  /** What an accepted address looks like: exactly one '@', not first, no whitespace, and a
      dot in the domain that is neither first nor last. */
  lemma AcceptedEmailShape(s: string)
    requires EmailFieldValid(s)
    ensures multiset(s)['@'] == 1
    ensures forall k :: 0 <= k < |s| ==> !IsWhitespace(s[k])
    ensures exists i :: (0 < i < |s| && s[i] == '@' && IsDomain(s[i + 1..]))
  {
    EmailFormatMatchesRegex(s);
    var i, j :| 0 <= i < j < |s| && MatchesAt(s, i, j);
    var a, b, c := s[..i], s[i + 1..j], s[j + 1..];
    assert s == a + ['@'] + b + ['.'] + c;
    PlainHasNoAt(a);
    PlainHasNoAt(b);
    PlainHasNoAt(c);
    NoWhitespaceIn(s, i, j);
  }

  lemma PlainHasNoAt(t: string)
    requires Plain(t)
    ensures multiset(t)['@'] == 0
  {
    assert '@' !in t;
  }

  lemma NoWhitespaceIn(s: string, i: int, j: int)
    requires 0 <= i < j < |s| && MatchesAt(s, i, j)
    ensures forall k :: 0 <= k < |s| ==> !IsWhitespace(s[k])
  {
    forall k | 0 <= k < |s| ensures !IsWhitespace(s[k]) {
      if k < i {
        assert s[k] == s[..i][k];
      } else if i < k < j {
        assert s[k] == s[i + 1..j][k - i - 1];
      } else if j < k {
        assert s[k] == s[j + 1..][k - j - 1];
      }
    }
  }

  /** With the first '@' at `i`, the pattern reduces to its two sides. */
  lemma EmailFormatAt(s: string, i: nat)
    requires i < |s| && s[i] == '@' && forall k :: 0 <= k < i ==> s[k] != '@'
    ensures IsEmailFormat(s) <==> Plain(s[..i]) && IsDomain(s[i + 1..])
  {
    var at := FirstIndex(s, (c: char) => c == '@');
    assert at == Some(i);
  }

  /** A dot anywhere inside the domain will do: "a@b.c" and "a@b..c" match. */
  lemma AcceptedExamples()
    ensures IsEmailFormat("a@b.c") && IsEmailFormat("a@b..c")
  {
    AcceptsOneDot();
    AcceptsTwoDots();
  }

  lemma AcceptsOneDot()
    ensures IsEmailFormat("a@b.c")
  {
    EmailFormatAt("a@b.c", 1);
    assert "a@b.c"[..1] == "a";
    assert "a@b.c"[2..] == "b.c" && "b.c"[1] == '.';
  }

  lemma AcceptsTwoDots()
    ensures IsEmailFormat("a@b..c")
  {
    EmailFormatAt("a@b..c", 1);
    assert "a@b..c"[..1] == "a";
    assert "a@b..c"[2..] == "b..c" && "b..c"[1] == '.';
  }

  /** A domain without a dot strictly inside it is refused: "a@b", "a@.c", "a@b.". */
  lemma RejectedDomainExamples()
    ensures !IsEmailFormat("a@b") && !IsEmailFormat("a@.c") && !IsEmailFormat("a@b.")
  {
    EmailFormatAt("a@b", 1);
    assert "a@b"[2..] == "b";
    EmailFormatAt("a@.c", 1);
    assert "a@.c"[2..] == ".c";
    EmailFormatAt("a@b.", 1);
    assert "a@b."[2..] == "b.";
  }

  /** An empty local part, a second '@' and a space are refused; the empty string passes the
      pattern attribute but not the required field. */
  lemma RejectedLocalExamples()
    ensures !IsEmailFormat("@b.c") && !IsEmailFormat("a@@b.c") && !IsEmailFormat("a b@c.d")
    ensures RegexAttributeAccepts("") && !EmailFieldValid("")
  {
    EmailFormatAt("@b.c", 0);
    assert "@b.c"[..0] == "";
    RejectsSecondAt();
    RejectsSpace();
  }

  lemma RejectsSecondAt()
    ensures !IsEmailFormat("a@@b.c")
  {
    EmailFormatAt("a@@b.c", 1);
    assert "a@@b.c"[2..] == "@b.c" && "@b.c"[0] == '@';
  }

  lemma RejectsSpace()
    ensures !IsEmailFormat("a b@c.d")
  {
    EmailFormatAt("a b@c.d", 3);
    assert "a b@c.d"[..3] == "a b" && IsWhitespace("a b"[1]);
  }

  /** The registration form as posted; `joinDate` is None when the posted value is not a date. */
  datatype RegisterForm = RegisterForm(
    fullName: string,
    gender: string,
    email: string,
    password: string,
    confirmPassword: string,
    joinDate: Option<int>)

  /** `ModelState.IsValid` for the registration form: every field `[Required]`, the email
      pattern, and `[Compare("Password")]` on the confirmation. */
  predicate FormValid(f: RegisterForm) {
    && Required(f.fullName)
    && Required(f.gender)
    && EmailFieldValid(f.email)
    && Required(f.password)
    && Required(f.confirmPassword)
    && f.confirmPassword == f.password
    && f.joinDate.Some?
  }

  /** A valid registration carries an address with exactly one '@' and no whitespace. */
  lemma ValidFormEmail(f: RegisterForm)
    requires FormValid(f)
    ensures multiset(f.email)['@'] == 1
    ensures forall k :: 0 <= k < |f.email| ==> !IsWhitespace(f.email[k])
  {
    AcceptedEmailShape(f.email);
  }
}
