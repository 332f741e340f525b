/** Text operations the authentication code relies on: JavaScript's
    `String.prototype.split` with a one-character separator, decimal
    rendering and `parseInt` of naturals, and the reversible escaping that
    the token encoding in module Jwt uses for its string fields. */
module Strings {
  import opened Wrappers

  /** `s.split(sep)`: the maximal pieces of `s` between occurrences of
      `sep`, in order. As in JavaScript, the empty string splits into one
      empty piece, and two adjacent separators give an empty piece. */
  function Split(s: string, sep: char): (parts: seq<string>)
    ensures |parts| >= 1
    ensures forall i :: 0 <= i < |parts| ==> sep !in parts[i]
    ensures |parts| >= 2 <==> sep in s
    decreases |s|
  {
    if s == [] then [[]]
    else
      var rest := Split(s[1..], sep);
      assert s == [s[0]] + s[1..];
      if s[0] == sep then [[]] + rest else [[s[0]] + rest[0]] + rest[1..]
  }

  /** `parts.join(sep)`. */
  function Join(parts: seq<string>, sep: char): string
    requires |parts| >= 1
    decreases |parts|
  {
    if |parts| == 1 then parts[0] else parts[0] + [sep] + Join(parts[1..], sep)
  }

  /** Splitting loses nothing: joining the pieces gives the string back. */
  lemma {:induction false} JoinSplit(s: string, sep: char)
    ensures Join(Split(s, sep), sep) == s
    decreases |s|
  {
    if s != [] {
      var rest := Split(s[1..], sep);
      JoinSplit(s[1..], sep);
      if s[0] == sep {
        assert Split(s, sep) == [[]] + rest;
        assert ([[]] + rest)[1..] == rest;
        assert s == [sep] + s[1..];
      } else if |rest| == 1 {
        assert Split(s, sep) == [[s[0]] + rest[0]];
        assert s == [s[0]] + s[1..];
      } else {
        var parts := [[s[0]] + rest[0]] + rest[1..];
        assert Split(s, sep) == parts;
        assert parts[1..] == rest[1..];
        assert Join(rest, sep) == rest[0] + [sep] + Join(rest[1..], sep);
        assert s == [s[0]] + s[1..];
      }
    }
  }

  /** A prefix free of the separator joins the first piece of what follows. */
  lemma {:induction false} SplitAfterPlain(a: string, t: string, sep: char)
    requires sep !in a
    ensures Split(a + t, sep) == [a + Split(t, sep)[0]] + Split(t, sep)[1..]
    decreases |a|
  {
    if a == [] {
      var parts := Split(t, sep);
      assert a + t == t;
      assert a + parts[0] == parts[0];
      assert [parts[0]] + parts[1..] == parts;
    } else {
      SplitAfterPlain(a[1..], t, sep);
      assert (a + t)[0] == a[0];
      assert (a + t)[1..] == a[1..] + t;
      assert [a[0]] + (a[1..] + Split(t, sep)[0]) == a + Split(t, sep)[0];
    }
  }

  /** The first piece ends at the first separator. */
  lemma SplitAtSeparator(a: string, b: string, sep: char)
    requires sep !in a
    ensures Split(a + [sep] + b, sep) == [a] + Split(b, sep)
  {
    SplitAfterPlain(a, [sep] + b, sep);
    assert a + [sep] + b == a + ([sep] + b);
    assert ([sep] + b)[1..] == b;
    assert Split([sep] + b, sep) == [[]] + Split(b, sep);
    assert a + [] == a;
  }

  /** A string without the separator is a single piece. */
  lemma SplitWithout(a: string, sep: char)
    requires sep !in a
    ensures Split(a, sep) == [a]
  {
    SplitAfterPlain(a, [], sep);
    assert a + [] == a;
  }

  predicate IsDigit(c: char) {
    '0' <= c <= '9'
  }

  function DigitChar(d: nat): (c: char)
    requires d < 10
    ensures IsDigit(c)
  {
    ('0' as int + d) as char
  }

  function DigitValue(c: char): Option<nat> {
    if IsDigit(c) then Some(c as int - '0' as int) else None
  }

  /** Decimal rendering of a natural, without leading zeros. */
  function NatToString(n: nat): (s: string)
    ensures |s| >= 1
    ensures forall i :: 0 <= i < |s| ==> IsDigit(s[i])
    decreases n
  {
    if n < 10 then [DigitChar(n)] else NatToString(n / 10) + [DigitChar(n % 10)]
  }

  /** Value of a non-empty string of decimal digits; None for any other string. */
  function ParseNat(s: string): Option<nat>
    decreases |s|
  {
    if s == [] then None
    else
      var last := DigitValue(s[|s| - 1]);
      if last.None? then None
      else if |s| == 1 then last
      else
        match ParseNat(s[..|s| - 1])
        case None => None
        case Some(p) => Some(10 * p + last.value)
  }

  /** Rendering then parsing a natural gives it back. */
  lemma {:induction false} ParseNatToString(n: nat)
    ensures ParseNat(NatToString(n)) == Some(n)
    decreases n
  {
    if n >= 10 {
      var s := NatToString(n);
      ParseNatToString(n / 10);
      assert s[..|s| - 1] == NatToString(n / 10);
      assert s[|s| - 1] == DigitChar(n % 10);
    }
  }

  /** The longest prefix of `s` made of decimal digits. */
  function LeadingDigits(s: string): (p: string)
    ensures p <= s
    ensures forall i :: 0 <= i < |p| ==> IsDigit(p[i])
    ensures |p| < |s| ==> !IsDigit(s[|p|])
    decreases |s|
  {
    if s != [] && IsDigit(s[0]) then [s[0]] + LeadingDigits(s[1..]) else []
  }

  /** A non-empty run of digits always parses. */
  lemma {:induction false} ParseNatDigits(s: string)
    requires forall i :: 0 <= i < |s| ==> IsDigit(s[i])
    ensures ParseNat(s).Some? <==> s != []
    decreases |s|
  {
    if |s| > 1 {
      ParseNatDigits(s[..|s| - 1]);
    }
  }

  /** Leading digits stop where the digits stop. */
  lemma {:induction false} LeadingDigitsAppend(d: string, rest: string)
    requires forall i :: 0 <= i < |d| ==> IsDigit(d[i])
    requires rest == [] || !IsDigit(rest[0])
    ensures LeadingDigits(d + rest) == d
    decreases |d|
  {
    if d != [] {
      LeadingDigitsAppend(d[1..], rest);
      assert (d + rest)[1..] == d[1..] + rest;
      assert d == [d[0]] + d[1..];
    }
  }

  /** JavaScript's `parseInt(s)` on a string that starts with a digit or with
      nothing parseable; None stands for NaN. Leading blanks, signs and the
      `0x` hexadecimal prefix are not modelled. */
  function ParseIntPrefix(s: string): (r: Option<nat>)
    ensures r.Some? <==> |s| > 0 && IsDigit(s[0])
  {
    var digits := LeadingDigits(s);
    ParseNatDigits(digits);
    ParseNat(digits)
  }

  /** `parseInt` reads back a rendered natural followed by any text that
      does not start with a digit (a unit such as "d"), except a zero
      followed by `x`, which JavaScript reads as a hexadecimal prefix. */
  lemma ParseIntPrefixRendering(n: nat, rest: string)
    requires rest == [] || !IsDigit(rest[0])
    requires n != 0 || rest == [] || (rest[0] != 'x' && rest[0] != 'X')
    ensures ParseIntPrefix(NatToString(n) + rest) == Some(n)
  {
    LeadingDigitsAppend(NatToString(n), rest);
    ParseNatToString(n);
  }

  /** The characters that the token encoding keeps out of its fields. */
  predicate Reserved(c: char) {
    c == ' ' || c == '.'
  }

  function EscapeChar(c: char): string {
    if c == '%' then "%%" else if c == ' ' then "%s" else if c == '.' then "%d" else [c]
  }

  /** Escaping: the result contains neither a blank nor a dot. */
  function Escape(s: string): (e: string)
    ensures forall i :: 0 <= i < |e| ==> !Reserved(e[i])
    decreases |s|
  {
    if s == [] then [] else EscapeChar(s[0]) + Escape(s[1..])
  }

  function UnescapeCode(c: char): Option<char> {
    if c == '%' then Some('%') else if c == 's' then Some(' ') else if c == 'd' then Some('.') else None
  }

  function Unescape(e: string): Option<string>
    decreases |e|
  {
    if e == [] then Some([])
    else if e[0] != '%' then
      match Unescape(e[1..])
      case None => None
      case Some(r) => Some([e[0]] + r)
    else if |e| < 2 then None
    else
      match (UnescapeCode(e[1]), Unescape(e[2..]))
      case (Some(c), Some(r)) => Some([c] + r)
      case _ => None
  }

  /** Escaping is reversible. */
  lemma {:induction false} UnescapeEscape(s: string)
    ensures Unescape(Escape(s)) == Some(s)
    decreases |s|
  {
    if s != [] {
      var e := Escape(s);
      var tail := Escape(s[1..]);
      UnescapeEscape(s[1..]);
      assert e == EscapeChar(s[0]) + tail;
      if s[0] == '%' || s[0] == ' ' || s[0] == '.' {
        assert e[2..] == tail;
      } else {
        assert e[1..] == tail;
      }
      assert s == [s[0]] + s[1..];
    }
  }
}
