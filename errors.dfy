/**
 * The exceptions the services throw and the messages they carry.
 * A stock id enters a message through Long.toString, modelled by IdText.
 */
module Errors {
  import opened Entities

  /**
   * NotFound is java.util.NoSuchElementException (mapped to HTTP 404 by the
   * controllers); Failure is the RuntimeException that createStock wraps a
   * store failure in.
   */
  datatype Error = NotFound(message: string) | Failure(message: string)

  const NotFoundPrefix := "Stock not found with id: "
  const IntegrityPrefix := "Data integrity violation: "
  const CreateFailurePrefix := "An error occurred while creating the stock: "

  predicate IsDigit(c: char) {
    '0' <= c <= '9'
  }

  predicate AllDigits(s: string) {
    forall i :: 0 <= i < |s| ==> IsDigit(s[i])
  }

  function DigitChar(d: nat): (c: char)
    requires d < 10
    ensures IsDigit(c)
    ensures c == '0' <==> d == 0
  {
    ('0' as int + d) as char
  }

  function DigitValue(c: char): (d: nat)
    requires IsDigit(c)
    ensures d < 10
    ensures DigitChar(d) == c
  {
    c as int - '0' as int
  }

  /** The decimal digits of n, most significant first, without leading zeros. */
  function Digits(n: nat): (s: string)
    ensures |s| >= 1 && AllDigits(s)
    ensures s[0] == '0' ==> n == 0
    decreases n
  {
    if n < 10 then [DigitChar(n)] else Digits(n / 10) + [DigitChar(n % 10)]
  }

  /** Reads a string of decimal digits back as a number. */
  function ParseDigits(s: string): (n: nat)
    requires AllDigits(s)
    decreases |s|
  {
    if s == [] then 0 else ParseDigits(s[..|s| - 1]) * 10 + DigitValue(s[|s| - 1])
  }

  lemma {:induction false} DigitsRoundTrip(n: nat)
    ensures ParseDigits(Digits(n)) == n
    decreases n
  {
    var s := Digits(n);
    if n >= 10 {
      DigitsRoundTrip(n / 10);
      assert s[..|s| - 1] == Digits(n / 10);
      assert DigitValue(DigitChar(n % 10)) == n % 10;
    } else {
      assert s[..|s| - 1] == [];
      assert DigitValue(DigitChar(n)) == n;
    }
  }

  /** Long.toString: an optional minus sign followed by the digits of the magnitude. */
  function IdText(id: StockId): (s: string)
    ensures |s| >= 1
    ensures s[0] == '-' <==> id < 0
  {
    if id < 0 then "-" + Digits(-id) else Digits(id)
  }

  predicate IsIdText(s: string) {
    || (|s| >= 1 && AllDigits(s))
    || (|s| >= 2 && s[0] == '-' && AllDigits(s[1..]))
  }

  /** Long.parseLong on a well-formed decimal string. */
  function ParseId(s: string): StockId
    requires IsIdText(s)
  {
    if s[0] == '-' then -(ParseDigits(s[1..]) as int) else ParseDigits(s)
  }

  lemma {:induction false} IdTextRoundTrip(id: StockId)
    ensures IsIdText(IdText(id))
    ensures ParseId(IdText(id)) == id
  {
    var s := IdText(id);
    if id < 0 {
      assert s[1..] == Digits(-id);
      DigitsRoundTrip(-id);
    } else {
      DigitsRoundTrip(id);
    }
  }

  /** The message of the NoSuchElementException thrown for an absent stock id. */
  function NotFoundMessage(id: StockId): (m: string)
    ensures |m| > |NotFoundPrefix| && m[..|NotFoundPrefix|] == NotFoundPrefix
    ensures m[|NotFoundPrefix|..] == IdText(id)
  {
    NotFoundPrefix + IdText(id)
  }

  /** Different ids never produce the same not-found message: the id can be read back from it. */
  lemma {:induction false} NotFoundMessageNamesTheId(a: StockId, b: StockId)
    requires NotFoundMessage(a) == NotFoundMessage(b)
    ensures a == b
  {
    var k := |NotFoundPrefix|;
    assert NotFoundMessage(a)[k..] == IdText(a);
    assert NotFoundMessage(b)[k..] == IdText(b);
    IdTextRoundTrip(a);
    IdTextRoundTrip(b);
  }

  /** The message createStock raises when the store reports an integrity violation. */
  function IntegrityMessage(cause: string): (m: string)
    ensures |m| >= |IntegrityPrefix|
    ensures m[..|IntegrityPrefix|] == IntegrityPrefix && m[|IntegrityPrefix|..] == cause
  {
    IntegrityPrefix + cause
  }

  /** The message createStock raises for any other store failure. */
  function CreateFailureMessage(cause: string): (m: string)
    ensures |m| >= |CreateFailurePrefix|
    ensures m[..|CreateFailurePrefix|] == CreateFailurePrefix && m[|CreateFailurePrefix|..] == cause
  {
    CreateFailurePrefix + cause
  }

  /** A caller can tell the two creation failures apart by the message alone. */
  lemma CreationFailuresAreDistinguishable(cause1: string, cause2: string)
    ensures IntegrityMessage(cause1) != CreateFailureMessage(cause2)
  {
    assert IntegrityMessage(cause1)[0] == IntegrityPrefix[0] == 'D';
    assert CreateFailureMessage(cause2)[0] == CreateFailurePrefix[0] == 'A';
  }
}
