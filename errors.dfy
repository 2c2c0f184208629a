/**
 * The failures the user repository reports, and the exact text of each one.
 *
 * The repository returns Go errors built with fmt.Errorf, and the HTTP layer
 * tells a missing user from an email conflict only by comparing that text with
 * a freshly formatted message. This module keeps the failures as tagged
 * variants and proves that the text comparison nevertheless identifies them.
 */
module Errors {

  /** The failures of the repository's own logic. */
  datatype Error =
    | NotFound(id: int)                        // "user with ID %d not found"
    | Conflict(email: string)                  // "user with email '%s' already exists"
    | SeedFailed(name: string, cause: Error)   // "failed to seed user %s: %v"

  /** A value or the failure that prevented it. */
  datatype Result<T> = Ok(value: T) | Err(error: Error)

  /** Success without a value, or a failure. */
  datatype Outcome = Pass | Fail(error: Error)

  /** The character of a decimal digit. */
  function Digit(d: nat): (c: char)
    requires d < 10
    ensures '0' <= c <= '9'
    ensures c as int - '0' as int == d
  {
    ('0' as int + d) as char
  }

  /** The decimal digits of `n`, most significant first, without leading zeros. */
  function Digits(n: nat): (s: string)
    ensures 1 <= |s|
    ensures |s| == 1 <==> n < 10
    ensures forall i :: 0 <= i < |s| ==> '0' <= s[i] <= '9'
  {
    if n < 10 then [Digit(n)] else Digits(n / 10) + [Digit(n % 10)]
  }

  /** Go's `%d` verb applied to an int: a minus sign, then the digits of the magnitude. */
  function Decimal(n: int): (s: string)
    ensures 1 <= |s|
    ensures s[0] == '-' <==> n < 0
  {
    if n < 0 then "-" + Digits(-n) else Digits(n)
  }

  /**
   * The text of the error value the repository returns. The kind of failure
   * can be read off the text, and a seed failure ends with its cause's text
   * (the `%v` it wraps).
   */
  function Message(e: Error): (m: string)
    ensures 11 <= |m|
    ensures m[0] == 'f' <==> e.SeedFailed?
    ensures !e.SeedFailed? ==> (m[10] == 'I' <==> e.NotFound?)
    ensures e.SeedFailed? ==>
      |Message(e.cause)| < |m| && m[|m| - |Message(e.cause)|..] == Message(e.cause)
  {
    match e
    case NotFound(id) => "user with ID " + Decimal(id) + " not found"
    case Conflict(email) => "user with email '" + email + "' already exists"
    case SeedFailed(name, cause) => "failed to seed user " + name + ": " + Message(cause)
  }

  /** Different numbers have different digit strings. */
  lemma {:induction false} DigitsInjective(a: nat, b: nat)
    requires Digits(a) == Digits(b)
    ensures a == b
  {
    var s := Digits(a);
    if a < 10 || b < 10 {
      assert |s| == 1;
      assert s[0] as int - '0' as int == a;
      assert s[0] as int - '0' as int == b;
    } else {
      var n := |s|;
      assert s == Digits(a / 10) + [Digit(a % 10)];
      assert s == Digits(b / 10) + [Digit(b % 10)];
      assert s[n - 1] as int - '0' as int == a % 10 == b % 10;
      assert Digits(a / 10) == s[..n - 1] == Digits(b / 10);
      DigitsInjective(a / 10, b / 10);
    }
  }

  /** `%d` is injective: the number can be read back from its text. */
  lemma DecimalInjective(a: int, b: int)
    requires Decimal(a) == Decimal(b)
    ensures a == b
  {
    var s := Decimal(a);
    if a < 0 {
      assert s[1..] == Digits(-a) == Digits(-b);
      DigitsInjective(-a, -b);
    } else {
      DigitsInjective(a, b);
    }
  }

  /**
   * Comparing an error's text with the not-found message for `id` succeeds
   * exactly when the error is the not-found error for that very id.
   */
  lemma NotFoundMessageIdentifies(e: Error, id: int)
    ensures Message(e) == Message(NotFound(id)) <==> e == NotFound(id)
  {
    var m := Message(NotFound(id));
    assert m[10] == 'I';
    match e
    case NotFound(other) =>
      if Message(e) == m {
        var d := Decimal(other);
        assert |d| == |Decimal(id)|;
        assert d == Message(e)[13..13 + |d|] == m[13..13 + |d|] == Decimal(id);
        DecimalInjective(other, id);
      }
    case Conflict(email) =>
      assert Message(e)[10] == 'e';
    case SeedFailed(name, cause) =>
      assert Message(e)[0] == 'f' != m[0];
  }

  /**
   * Comparing an error's text with the conflict message for `email` succeeds
   * exactly when the error is the conflict error for that very email.
   */
  lemma ConflictMessageIdentifies(e: Error, email: string)
    ensures Message(e) == Message(Conflict(email)) <==> e == Conflict(email)
  {
    var m := Message(Conflict(email));
    assert m[10] == 'e';
    match e
    case NotFound(id) =>
      assert Message(e)[10] == 'I';
    case Conflict(other) =>
      if Message(e) == m {
        assert |other| == |email|;
        assert other == Message(e)[17..17 + |other|] == m[17..17 + |email|] == email;
      }
    case SeedFailed(name, cause) =>
      assert Message(e)[0] == 'f' != m[0];
  }
}
