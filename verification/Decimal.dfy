/** The standard-library number conversions the server relies on for Content-Length:
    `std::to_string` on the printing side and `std::stoul` on the parsing side. */
module Decimal {
  import opened Wrappers

  // unsigned long is 64 bits wide
  const ULONG_RANGE: nat := 0x1_0000_0000_0000_0000

  predicate IsSpace(c: char) { c == ' ' || '\t' <= c <= '\r' }

  predicate AllSpace(s: string) { forall i :: 0 <= i < |s| ==> IsSpace(s[i]) }

  predicate IsDigit(c: char) { '0' <= c <= '9' }

  function DigitValue(c: char): nat
    requires IsDigit(c)
  {
    c as int - '0' as int
  }

  predicate AllDigits(s: string) { forall i :: 0 <= i < |s| ==> IsDigit(s[i]) }

  /** The value a digit string denotes. */
  function ValueOf(s: string): nat
    requires AllDigits(s)
  {
    if s == "" then 0 else 10 * ValueOf(s[..|s| - 1]) + DigitValue(s[|s| - 1])
  }

  /** std::to_string of an unsigned value. */
  function ToDecimal(n: nat): (s: string)
    ensures s != "" && AllDigits(s) && ValueOf(s) == n
  {
    var last := [('0' as int + n % 10) as char];
    if n < 10 then last else ToDecimal(n / 10) + last
  }

  function DropSpace(s: string): string {
    if s != "" && IsSpace(s[0]) then DropSpace(s[1..]) else s
  }

  function DigitPrefix(s: string): (d: string)
    ensures AllDigits(d) && d <= s
    ensures |d| < |s| ==> !IsDigit(s[|d|])
  {
    if s != "" && IsDigit(s[0]) then [s[0]] + DigitPrefix(s[1..]) else ""
  }

  function SignOf(s: string): (sign: string)
    ensures sign <= s
  {
    if s != "" && (s[0] == '-' || s[0] == '+') then [s[0]] else ""
  }

  /** std::stoul: leading white space, an optional sign, then digits; trailing text is ignored.
      None is the exception thrown on no digits or on a value out of range. */
  function Stoul(s: string): Option<nat> {
    var t := DropSpace(s);
    var sign := SignOf(t);
    var d := DigitPrefix(t[|sign|..]);
    if d == "" || ValueOf(d) >= ULONG_RANGE then None
    else if sign == "-" then Some((ULONG_RANGE - ValueOf(d)) % ULONG_RANGE)
    else Some(ValueOf(d))
  }

  lemma {:induction false} DigitPrefixOfDigits(s: string)
    requires AllDigits(s)
    ensures DigitPrefix(s) == s
  {
    if s != "" {
      DigitPrefixOfDigits(s[1..]);
    }
  }

  /** Printing a length and reading it back gives the length, and reading fails exactly on lengths
      that do not fit an unsigned long. */
  lemma {:induction false} StoulOfToDecimal(n: nat)
    ensures Stoul(ToDecimal(n)) == if n < 18446744073709551616 then Some(n) else None
  {
    DigitPrefixOfDigits(ToDecimal(n));
  }

  /** A numeral as stoul sees it: white space, a sign or none, digits, and anything that is no digit. */
  datatype Numeral = Numeral(space: string, sign: string, digits: string, rest: string) {
    predicate Valid() {
      && AllSpace(space) && sign in {"", "-", "+"} && digits != "" && AllDigits(digits)
      && (rest != "" ==> !IsDigit(rest[0]))
    }

    function Text(): string { space + (sign + (digits + rest)) }
  }

  lemma {:induction false} DropSpaceOn(w: string, s: string)
    requires AllSpace(w) && (s != "" ==> !IsSpace(s[0]))
    ensures DropSpace(w + s) == s
  {
    if w == "" {
      assert w + s == s;
    } else {
      assert (w + s)[1..] == w[1..] + s;
      DropSpaceOn(w[1..], s);
    }
  }

  lemma {:induction false} DigitPrefixOn(d: string, rest: string)
    requires AllDigits(d) && (rest != "" ==> !IsDigit(rest[0]))
    ensures DigitPrefix(d + rest) == d
  {
    if d == "" {
      assert d + rest == rest;
    } else {
      assert (d + rest)[1..] == d[1..] + rest;
      DigitPrefixOn(d[1..], rest);
      assert [d[0]] + d[1..] == d;
    }
  }

  lemma {:induction false} SignOn(sign: string, d: string, rest: string)
    requires sign in {"", "-", "+"} && d != "" && IsDigit(d[0])
    ensures var t := sign + (d + rest); SignOf(t) == sign && t[|sign|..] == d + rest && !IsSpace(t[0])
  {
    var t := sign + (d + rest);
    assert t[0] == if sign == "" then d[0] else sign[0];
  }

  /** What a numeral reads as: its digits' value, counted down from the range after a minus sign, and
      nothing when that value is out of range. */
  lemma {:induction false} StoulReads(n: Numeral)
    requires n.Valid()
    ensures Stoul(n.Text()) ==
            if ValueOf(n.digits) >= ULONG_RANGE then None
            else if n.sign == "-" then Some((ULONG_RANGE - ValueOf(n.digits)) % ULONG_RANGE)
            else Some(ValueOf(n.digits))
  {
    hide DropSpace, DigitPrefix, ValueOf, SignOf;
    SignOn(n.sign, n.digits, n.rest);
    DropSpaceOn(n.space, n.sign + (n.digits + n.rest));
    DigitPrefixOn(n.digits, n.rest);
  }

  lemma {:induction false} SpaceDropped(s: string) returns (w: string)
    ensures AllSpace(w) && w + DropSpace(s) == s
  {
    w := "";
    if s != "" && IsSpace(s[0]) {
      var v := SpaceDropped(s[1..]);
      w := [s[0]] + v;
      assert s == [s[0]] + (v + DropSpace(s[1..]));
    } else {
      assert w + s == s;
    }
  }

  lemma {:induction false} StoulFinds(s: string) returns (n: Numeral)
    requires Stoul(s).Some?
    ensures n.Valid() && n.Text() == s
  {
    hide DropSpace, DigitPrefix, ValueOf;
    var t := DropSpace(s);
    var w := SpaceDropped(s);
    var u := t[|SignOf(t)|..];
    var d := DigitPrefix(u);
    assert u == d + u[|d|..];
    assert t == SignOf(t) + u;
    n := Numeral(w, SignOf(t), d, u[|d|..]);
  }

  /** stoul throws exactly on text that starts with no numeral in range. */
  lemma {:induction false} StoulThrows(s: string)
    ensures Stoul(s).None? <==> !exists n: Numeral :: n.Valid() && n.Text() == s && ValueOf(n.digits) < ULONG_RANGE
  {
    if Stoul(s).Some? {
      var n := StoulFinds(s);
      StoulReads(n);
      assert n.Valid() && n.Text() == s && ValueOf(n.digits) < ULONG_RANGE;
    } else if n: Numeral :| n.Valid() && n.Text() == s && ValueOf(n.digits) < ULONG_RANGE {
      StoulReads(n);
      assert false;
    }
  }

  /** The characters themselves: white space by code, digits by the text of all ten. */
  lemma {:induction false} CharactersExactly(c: char)
    ensures IsSpace(c) <==> c as int in {9, 10, 11, 12, 13, 32}
    ensures IsDigit(c) <==> c in "0123456789"
    ensures IsDigit(c) ==> DigitValue(c) < 10 && "0123456789"[DigitValue(c)] == c
  {
    var digits := "0123456789";
    if IsDigit(c) {
      assert digits[DigitValue(c)] == c;
    }
    if c in digits {
      var i :| 0 <= i < |digits| && digits[i] == c;
    }
  }
}
