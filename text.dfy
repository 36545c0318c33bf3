/**
  Byte-level text helpers shared by the plugin (Rust) and the bindings (TypeScript):
  the ASCII constants both sides use, canonical decimal text of an integer
  (`u32::to_string` in Rust, `String(n)` in JavaScript), Rust's `from_str` for
  unsigned integers, and JavaScript's `String.prototype.trim`.

  Text is modelled as a sequence of bytes; UTF-8 decoding is not modelled.
 */
module Text {
  import opened Wrappers

  newtype byte = b: int | 0 <= b < 256

  /** The bytes of an ASCII string literal. */
  function Ascii(s: string): seq<byte>
  {
    seq(|s|, i requires 0 <= i < |s| => (s[i] as int % 256) as byte)
  }

  predicate StartsWith(s: seq<byte>, prefix: seq<byte>)
  {
    |prefix| <= |s| && s[..|prefix|] == prefix
  }

  // ---------------------------------------------------------------------------
  // Decimal digits

  const ZERO: byte := 48
  const PLUS: byte := 43

  predicate IsDigit(b: byte)
  {
    48 <= b <= 57
  }

  predicate AllDigits(s: seq<byte>)
  {
    forall i | 0 <= i < |s| :: IsDigit(s[i])
  }

  /** The number a string of decimal digits denotes (leading zeros allowed). */
  function DigitsValue(s: seq<byte>): nat
    requires AllDigits(s)
    decreases |s|
  {
    if s == [] then 0
    else 10 * DigitsValue(s[..|s| - 1]) + (s[|s| - 1] - ZERO) as int
  }

  /**
    Canonical decimal text of `n`, as Rust's `to_string` and JavaScript's
    `String` write a non-negative integer: at least one digit, and no leading
    zero unless the number is zero.
   */
  function DecimalText(n: nat): (r: seq<byte>)
    ensures r != [] && AllDigits(r)
    ensures r[0] == ZERO ==> n == 0
    decreases n
  {
    if n < 10 then [(48 + n) as byte]
    else DecimalText(n / 10) + [(48 + n % 10) as byte]
  }

  lemma {:induction false} DecimalTextValue(n: nat)
    ensures DigitsValue(DecimalText(n)) == n
    decreases n
  {
    if n >= 10 {
      var prefix := DecimalText(n / 10);
      var s := prefix + [(48 + n % 10) as byte];
      assert s[..|s| - 1] == prefix;
      DecimalTextValue(n / 10);
    }
  }

  /**
    Rust's `from_str` for an unsigned integer type whose values are below
    `limit`: an optional leading `+`, then one or more decimal digits, and a
    value that fits; anything else is a parse error (`None`).
   */
  function ParseUnsigned(s: seq<byte>, limit: nat): (r: Option<nat>)
    ensures r.Some? ==> r.value < limit
  {
    var digits := if s != [] && s[0] == PLUS then s[1..] else s;
    if digits == [] || !AllDigits(digits) then None
    else if DigitsValue(digits) < limit then Some(DigitsValue(digits))
    else None
  }

  /** Decimal text parses back to the number it was written from. */
  lemma ParseDecimalText(n: nat, limit: nat)
    requires n < limit
    ensures ParseUnsigned(DecimalText(n), limit) == Some(n)
  {
    DecimalTextValue(n);
  }

  /** A number at or above `limit` is refused even when written canonically. */
  lemma ParseDecimalTextTooLarge(n: nat, limit: nat)
    requires limit <= n
    ensures ParseUnsigned(DecimalText(n), limit) == None
  {
    DecimalTextValue(n);
  }

  /** A leading zero does not change the value of a digit string. */
  lemma {:induction false} DigitsValueLeadingZero(s: seq<byte>)
    requires AllDigits(s)
    ensures AllDigits([ZERO] + s) && DigitsValue([ZERO] + s) == DigitsValue(s)
    decreases |s|
  {
    if s != [] {
      var t := [ZERO] + s;
      assert t[..|t| - 1] == [ZERO] + s[..|s| - 1];
      DigitsValueLeadingZero(s[..|s| - 1]);
    }
  }

  /** A `+` sign in front of the digits is accepted. */
  lemma PlusAccepted(n: nat, limit: nat)
    requires n < limit
    ensures ParseUnsigned([PLUS] + DecimalText(n), limit) == Some(n)
  {
    assert ([PLUS] + DecimalText(n))[1..] == DecimalText(n);
    DecimalTextValue(n);
  }

  /** Leading zeros are accepted: `007` reads as 7. */
  lemma LeadingZeroAccepted(n: nat, limit: nat)
    requires n < limit
    ensures ParseUnsigned([ZERO] + DecimalText(n), limit) == Some(n)
  {
    DecimalTextValue(n);
    DigitsValueLeadingZero(DecimalText(n));
  }

  /**
    Text that is empty, a lone `+`, or holds anything other than a digit
    (outside a single leading `+`) is refused: a sign `-`, a space, a letter.
   */
  lemma NonNumericRefused(s: seq<byte>, limit: nat)
    requires s == [] || s == [PLUS] || exists i | 0 <= i < |s| :: !IsDigit(s[i]) && !(i == 0 && s[0] == PLUS)
    ensures ParseUnsigned(s, limit) == None
  {
    if s != [] && s != [PLUS] && s[0] == PLUS {
      var i :| 0 <= i < |s| && !IsDigit(s[i]) && !(i == 0 && s[0] == PLUS);
      assert !IsDigit(s[1..][i - 1]);
    }
  }

  // ---------------------------------------------------------------------------
  // Whitespace trimming

  /** The ASCII members of JavaScript's WhiteSpace and LineTerminator sets. */
  predicate IsSpace(b: byte)
  {
    b == 9 || b == 10 || b == 11 || b == 12 || b == 13 || b == 32
  }

  /** `s` with its leading whitespace removed. */
  function TrimStart(s: seq<byte>): (r: seq<byte>)
    ensures |r| <= |s| && r == s[|s| - |r|..]
    ensures forall i | 0 <= i < |s| - |r| :: IsSpace(s[i])
    ensures r != [] ==> !IsSpace(r[0])
    decreases |s|
  {
    if s != [] && IsSpace(s[0]) then TrimStart(s[1..]) else s
  }

  /** `s` with its trailing whitespace removed. */
  function TrimEnd(s: seq<byte>): (r: seq<byte>)
    ensures |r| <= |s| && r == s[..|r|]
    ensures forall i | |r| <= i < |s| :: IsSpace(s[i])
    ensures r != [] ==> !IsSpace(r[|r| - 1])
    decreases |s|
  {
    if s != [] && IsSpace(s[|s| - 1]) then TrimEnd(s[..|s| - 1]) else s
  }

  /**
    JavaScript's `trim`: both ends at once. The result is no longer than the
    input and neither starts nor ends with whitespace; text made only of
    whitespace trims to nothing.
   */
  function Trim(s: seq<byte>): (r: seq<byte>)
    ensures |r| <= |s|
    ensures r != [] ==> !IsSpace(r[0]) && !IsSpace(r[|r| - 1])
    ensures (forall i | 0 <= i < |s| :: IsSpace(s[i])) ==> r == []
  {
    var t := TrimStart(s);
    var e := TrimEnd(t);
    assert e != [] ==> e[0] == t[0];
    assert t != [] ==> t[0] == s[|s| - |t|];
    e
  }

  /** Text that neither starts nor ends with whitespace is left as it is. */
  lemma TrimUnpadded(s: seq<byte>)
    requires s != [] ==> !IsSpace(s[0]) && !IsSpace(s[|s| - 1])
    ensures Trim(s) == s
  {
  }

  /** Leading whitespace in front of unpadded text is exactly what `TrimStart` drops. */
  lemma {:induction false} TrimStartPadded(a: seq<byte>, m: seq<byte>)
    requires forall i | 0 <= i < |a| :: IsSpace(a[i])
    requires m != [] ==> !IsSpace(m[0])
    ensures TrimStart(a + m) == m
    decreases |a|
  {
    if a != [] {
      assert (a + m)[1..] == a[1..] + m;
      TrimStartPadded(a[1..], m);
    }
  }

  /** Trailing whitespace after unpadded text is exactly what `TrimEnd` drops. */
  lemma {:induction false} TrimEndPadded(m: seq<byte>, b: seq<byte>)
    requires forall i | 0 <= i < |b| :: IsSpace(b[i])
    requires m != [] ==> !IsSpace(m[|m| - 1])
    ensures TrimEnd(m + b) == m
    decreases |b|
  {
    if b != [] {
      assert (m + b)[..|m + b| - 1] == m + b[..|b| - 1];
      TrimEndPadded(m, b[..|b| - 1]);
    }
  }

  /**
    `Trim` removes exactly the whitespace around the text and keeps the text
    itself, so `Trim("msg\n")` is `"msg"`.
   */
  lemma TrimPadded(a: seq<byte>, m: seq<byte>, b: seq<byte>)
    requires forall i | 0 <= i < |a| :: IsSpace(a[i])
    requires forall i | 0 <= i < |b| :: IsSpace(b[i])
    requires m != [] ==> !IsSpace(m[0]) && !IsSpace(m[|m| - 1])
    ensures Trim(a + m + b) == m
  {
    assert a + m + b == a + (m + b);
    if m == [] {
      assert TrimStart(a + b) == [] by {
        assert forall i | 0 <= i < |a + b| :: IsSpace((a + b)[i]);
      }
    } else {
      TrimStartPadded(a, m + b);
      TrimEndPadded(m, b);
    }
  }

  /** Trimming twice is trimming once. */
  lemma TrimIdempotent(s: seq<byte>)
    ensures Trim(Trim(s)) == Trim(s)
  {
    TrimUnpadded(Trim(s));
  }
}
