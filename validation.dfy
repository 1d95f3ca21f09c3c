/**
 * The server's input validators (src/lib/validation.ts): the email shape, the password policy
 * and the odometer range.
 */
module Validation {
  import JsText
  import Gauge

  // ---- Email ----

  /** The first position of `c` in `s`, or `|s|` when there is none. */
  function IndexOf(s: string, c: char): (k: nat)
    ensures k <= |s|
    ensures k < |s| <==> c in s
    ensures k < |s| ==> s[k] == c
    ensures c !in s[..k]
  {
    if s == [] then 0
    else if s[0] == c then 0
    else
      var k := 1 + IndexOf(s[1..], c);
      assert s[..k] == [s[0]] + s[1..][..k - 1];
      k
  }

  /** A character the class `[^\s@]` matches. */
  predicate Plain(c: char) {
    !JsText.IsJsSpace(c) && c != '@'
  }

  predicate AllPlain(t: string) {
    forall i | 0 <= i < |t| :: Plain(t[i])
  }

  predicate NoSpace(s: string) {
    forall i | 0 <= i < |s| :: !JsText.IsJsSpace(s[i])
  }

  /** A domain with a dot that is neither its first nor its last character. */
  predicate HasInnerDot(domain: string) {
    |domain| >= 3 && '.' in domain[1..|domain| - 1]
  }

  /**
   * `isValidEmail`: no white space anywhere, exactly one `@` with something before it, and a
   * dot inside the part after it.
   */
  predicate IsValidEmail(s: string) {
    var at := IndexOf(s, '@');
    && NoSpace(s)
    && 0 < at < |s|
    && '@' !in s[at + 1..]
    && HasInnerDot(s[at + 1..])
  }

  /**
   * One way `/^[^\s@]+@[^\s@]+\.[^\s@]+$/` can match `s`: the `@` at `a`, the escaped dot at
   * `d`, and the three runs of `[^\s@]` around them non-empty.
   */
  predicate MatchAt(s: string, a: int, d: int)
    requires 0 <= a < d < |s|
  {
    && 0 < a && a + 1 < d && d + 1 < |s|
    && s[a] == '@' && s[d] == '.'
    && AllPlain(s[..a]) && AllPlain(s[a + 1..d]) && AllPlain(s[d + 1..])
  }

  /** What the regular expression accepts: some way of matching the whole string. */
  ghost predicate RegexAccepts(s: string) {
    exists a, d | 0 <= a < d < |s| :: MatchAt(s, a, d)
  }

  /** The validator accepts exactly the strings the regular expression matches. */
  lemma EmailIsRegex(s: string)
    ensures IsValidEmail(s) <==> RegexAccepts(s)
  {
    if IsValidEmail(s) {
      var a := IndexOf(s, '@');
      var dom := s[a + 1..];
      var inner := dom[1..|dom| - 1];
      var d := a + 2 + IndexOf(inner, '.');
      assert s[d] == '.';
      assert MatchAt(s, a, d) by {
        assert forall i | 0 <= i < a :: s[..a][i] == s[i] && s[i] != '@';
        assert forall i | a + 1 <= i < |s| :: s[i] == dom[i - a - 1];
      }
    }
    if RegexAccepts(s) {
      var a, d :| 0 <= a < d < |s| && MatchAt(s, a, d);
      RegexShape(s, a, d);
    }
  }

  /** A match pins the `@` to the first one and leaves no white space and no second `@`. */
  lemma RegexShape(s: string, a: int, d: int)
    requires 0 <= a < d < |s| && MatchAt(s, a, d)
    ensures IsValidEmail(s)
  {
    assert forall i | 0 <= i < a :: s[i] == s[..a][i];
    assert forall i | a + 1 <= i < d :: s[i] == s[a + 1..d][i - a - 1];
    assert forall i | d + 1 <= i < |s| :: s[i] == s[d + 1..][i - d - 1];
    assert '@' !in s[..a];
    IndexOfFirst(s, '@', a);
    var dom := s[a + 1..];
    assert '@' !in dom by {
      assert forall j | 0 <= j < |dom| :: dom[j] == s[a + 1 + j];
    }
    assert dom[1..|dom| - 1][d - a - 2] == '.';
  }

  lemma IndexOfFirst(s: string, c: char, k: nat)
    requires k < |s| && s[k] == c && c !in s[..k]
    ensures IndexOf(s, c) == k
  {
    var r := IndexOf(s, c);
    assert forall m | 0 <= m < k :: s[..k][m] == s[m];
    assert forall m | 0 <= m < r :: s[..r][m] == s[m];
  }

  /** A valid address has its one `@` at the position `IndexOf` finds and no white space. */
  lemma ValidEmailOneAt(s: string)
    requires IsValidEmail(s)
    ensures forall k | 0 <= k < |s| && s[k] == '@' :: k == IndexOf(s, '@')
    ensures NoSpace(s)
  {
    var at := IndexOf(s, '@');
    OnlyAt(s, '@', at);
  }

  /** `c` occurs nowhere before `k` and nowhere after it: every occurrence is at `k`. */
  lemma OnlyAt(s: string, c: char, k: nat)
    requires k < |s| && c !in s[..k] && c !in s[k + 1..]
    ensures forall m | 0 <= m < |s| && s[m] == c :: m == k
  {
    forall m | 0 <= m < |s| && m != k
      ensures s[m] != c
    {
      if m < k {
        assert s[m] == s[..k][m];
      } else {
        assert s[m] == s[k + 1..][m - k - 1];
      }
    }
  }

  /** Any white space, or a second `@`, makes the address invalid. */
  lemma EmailRejects(s: string, i: nat, j: nat)
    requires i < j < |s|
    ensures JsText.IsJsSpace(s[i]) ==> !IsValidEmail(s)
    ensures s[i] == '@' && s[j] == '@' ==> !IsValidEmail(s)
  {
    if IsValidEmail(s) {
      ValidEmailOneAt(s);
    }
  }

  // ---- Password ----

  predicate IsAsciiLetter(c: char) {
    ('a' <= c <= 'z') || ('A' <= c <= 'Z')
  }

  /** `/[a-zA-Z]/.test(s)`, as a left-to-right scan. */
  function HasLetter(s: string): (b: bool)
    ensures b <==> exists i | 0 <= i < |s| :: IsAsciiLetter(s[i])
  {
    if s == [] then false
    else IsAsciiLetter(s[0]) || (assert forall i | 1 <= i < |s| :: s[i] == s[1..][i - 1]; HasLetter(s[1..]))
  }

  /** `/[0-9]/.test(s)`, as a left-to-right scan. */
  function HasDigit(s: string): (b: bool)
    ensures b <==> exists i | 0 <= i < |s| :: JsText.IsDecimalDigit(s[i])
  {
    if s == [] then false
    else JsText.IsDecimalDigit(s[0]) || (assert forall i | 1 <= i < |s| :: s[i] == s[1..][i - 1]; HasDigit(s[1..]))
  }

  /** `isValidPassword`: at least eight characters, among them an ASCII letter and a digit. */
  predicate IsValidPassword(p: string) {
    |p| >= 8 && HasLetter(p) && HasDigit(p)
  }

  /**
   * The policy in one statement: accepted exactly when long enough with a letter and a digit,
   * so anything under eight characters is refused, and a valid password stays valid when
   * characters are added on either side.
   */
  lemma PasswordPolicy(p: string, before: string, after: string)
    ensures IsValidPassword(p) <==>
      |p| >= 8 && (exists i | 0 <= i < |p| :: IsAsciiLetter(p[i]))
      && (exists i | 0 <= i < |p| :: JsText.IsDecimalDigit(p[i]))
    ensures |p| < 8 ==> !IsValidPassword(p)
    ensures IsValidPassword(p) ==> IsValidPassword(before + p + after)
  {
    var q := before + p + after;
    if IsValidPassword(p) {
      var i :| 0 <= i < |p| && IsAsciiLetter(p[i]);
      var j :| 0 <= j < |p| && JsText.IsDecimalDigit(p[j]);
      assert q[|before| + i] == p[i];
      assert q[|before| + j] == p[j];
    }
  }

  // ---- Odometer ----

  /** `isValidOdometer`: an integer (so not `NaN`) from 0 up to, not including, two million. */
  predicate IsValidOdometer(km: Gauge.Num) {
    km.Finite? && km.v.Floor as real == km.v && 0.0 <= km.v < 2000000.0
  }

  /**
   * The accepted readings are exactly the whole numbers 0..1999999: 0 and 1999999 pass,
   * 2000000 and -1 fail, and so does any fraction and `NaN`.
   */
  lemma OdometerRange(n: int, x: real)
    ensures IsValidOdometer(Gauge.Finite(n as real)) <==> 0 <= n < 2000000
    ensures x.Floor as real != x ==> !IsValidOdometer(Gauge.Finite(x))
    ensures !IsValidOdometer(Gauge.NaN)
  {
    assert (n as real).Floor == n;
  }
}
