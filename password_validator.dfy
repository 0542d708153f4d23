/**
 * The password-strength rule applied to new passwords: at least eight
 * characters, an ASCII upper-case letter, an ASCII lower-case letter, an
 * ASCII digit and one of the listed punctuation characters.
 */
module PasswordValidator {
  import opened Base

  predicate IsUpper(c: char) { 'A' <= c <= 'Z' }
  predicate IsLower(c: char) { 'a' <= c <= 'z' }
  predicate IsDigit(c: char) { '0' <= c <= '9' }

  /** The special characters of the rule, `!@#$%^&*(),.?":{}|<>`; `-`, `_` and space are not among them. */
  predicate IsSpecial(c: char)
  {
    || c == '!' || c == '@' || c == '#' || c == '$' || c == '%' || c == '^' || c == '&'
    || c == '*' || c == '(' || c == ')' || c == ',' || c == '.' || c == '?' || c == '"'
    || c == ':' || c == '{' || c == '}' || c == '|' || c == '<' || c == '>'
  }

  const MinLength: nat := 8

  /** One regular-expression character-class test: does some character of `s` pass `test`? */
  function AnyChar(s: string, test: char -> bool): (r: bool)
    ensures r <==> exists i :: 0 <= i < |s| && test(s[i])
    decreases |s|
  {
    if s == [] then false
    else if test(s[0]) then true
    else
      var r := AnyChar(s[1..], test);
      assert forall i :: 1 <= i < |s| ==> s[i] == s[1..][i - 1];
      assert r ==> exists i :: 1 <= i < |s| && test(s[i]) by {
        if r {
          var j :| 0 <= j < |s[1..]| && test(s[1..][j]);
          assert test(s[j + 1]);
        }
      }
      r
  }

  /**
   * `IsStrongPassword.validate`; a missing password is `None`. The checks run
   * in the source's order and the first that fails rejects.
   */
  function Validate(password: Option<string>): (ok: bool)
    ensures ok <==>
      && password.Some?
      && |password.value| >= MinLength
      && (exists i :: 0 <= i < |password.value| && IsUpper(password.value[i]))
      && (exists i :: 0 <= i < |password.value| && IsLower(password.value[i]))
      && (exists i :: 0 <= i < |password.value| && IsDigit(password.value[i]))
      && (exists i :: 0 <= i < |password.value| && IsSpecial(password.value[i]))
  {
    if password.None? || password.value == "" then false
    else if |password.value| < MinLength then false
    else if !AnyChar(password.value, IsUpper) then false
    else if !AnyChar(password.value, IsLower) then false
    else if !AnyChar(password.value, IsDigit) then false
    else if !AnyChar(password.value, IsSpecial) then false
    else true
  }

  /** A missing, empty or short password is rejected whatever it contains. */
  lemma ShortIsRejected(password: Option<string>)
    requires password.None? || |password.value| < MinLength
    ensures !Validate(password)
  {
  }

  /**
   * Every check is a length bound or a test for some character, so appending
   * characters to an accepted password keeps it accepted.
   */
  lemma AppendKeepsAccepted(p: string, suffix: string)
    requires Validate(Some(p))
    ensures Validate(Some(p + suffix))
  {
    var q := p + suffix;
    assert forall i :: 0 <= i < |p| ==> q[i] == p[i];
    var u :| 0 <= u < |p| && IsUpper(p[u]);
    var l :| 0 <= l < |p| && IsLower(p[l]);
    var d :| 0 <= d < |p| && IsDigit(p[d]);
    var x :| 0 <= x < |p| && IsSpecial(p[x]);
    assert IsUpper(q[u]) && IsLower(q[l]) && IsDigit(q[d]) && IsSpecial(q[x]);
  }

  /**
   * A password whose only punctuation is `-`, `_` or space fails the rule
   * whatever else it contains.
   */
  lemma CommonPunctuationIsNotSpecial(p: string)
    requires forall i :: 0 <= i < |p| ==> IsUpper(p[i]) || IsLower(p[i]) || IsDigit(p[i]) || p[i] == '-' || p[i] == '_' || p[i] == ' '
    ensures !Validate(Some(p))
  {
  }

  /** An example the rule accepts and its variant with `-` in place of `!`, which it rejects. */
  lemma Examples()
    ensures Validate(Some("Secret12!"))
    ensures !Validate(Some("Secret12-"))
    ensures !Validate(Some("Sec12!"))
  {
    assert IsUpper("Secret12!"[0]) && IsLower("Secret12!"[1]) && IsDigit("Secret12!"[6]) && IsSpecial("Secret12!"[8]);
    CommonPunctuationIsNotSpecial("Secret12-");
  }
}
