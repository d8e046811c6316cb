/** Python's `re.escape` (Python 3.7 and later) and a reader that undoes it. */
module Escaping {

  /** The characters `re.escape` prefixes with a backslash:
      `()[]{}?*+-|^$\.&~#`, the space, and `\t \n \r \v \f`. */
  predicate IsSpecial(c: char)
  {
    || c == '(' || c == ')' || c == '[' || c == ']' || c == '{' || c == '}'
    || c == '?' || c == '*' || c == '+' || c == '-' || c == '|' || c == '^'
    || c == '$' || c == '\\' || c == '.' || c == '&' || c == '~' || c == '#'
    || c == ' ' || c == '\t' || c == '\n' || c == '\r' || c == '\U{000B}' || c == '\U{000C}'
  }

  function EscapeChar(c: char): string
  {
    if IsSpecial(c) then ['\\', c] else [c]
  }

  /** `re.escape(s)`: every special character gets a backslash in front. */
  function Escape(s: string): (r: string)
    ensures |s| <= |r| <= 2 * |s|
    ensures s == [] <==> r == []
    ensures r != [] ==> r[0] != '('
  {
    if s == [] then [] else EscapeChar(s[0]) + Escape(s[1..])
  }

  /** `s` does not start with anything `re.escape` could have produced: it
      is empty, starts with a special character that is not a backslash, or
      starts with a backslash that does not escape a special character. */
  predicate EndsEscaped(s: string)
  {
    || s == []
    || (IsSpecial(s[0]) && s[0] != '\\')
    || (s[0] == '\\' && (|s| < 2 || !IsSpecial(s[1])))
  }

  /** Reads escaped text from the front of `s` for as long as it is what
      `re.escape` produces (an ordinary character, or a backslash followed by
      a special character): returns the unescaped text and the rest. In the
      patterns built here every literal group starts with an unescaped `(`,
      where reading stops. */
  function ReadEscaped(s: string): (p: (string, string))
    ensures |p.1| <= |s|
    ensures EndsEscaped(p.1)
    decreases |s|
  {
    if EndsEscaped(s) then
      ([], s)
    else if s[0] == '\\' then
      var (t, rest) := ReadEscaped(s[2..]);
      ([s[1]] + t, rest)
    else
      var (t, rest) := ReadEscaped(s[1..]);
      ([s[0]] + t, rest)
  }

  /** Reading one escaped character: the reader takes it back and goes on
      with what follows. */
  lemma ReadEscapedChar(c: char, t: string)
    ensures ReadEscaped(EscapeChar(c) + t) == ([c] + ReadEscaped(t).0, ReadEscaped(t).1)
  {
  }

  /** `re.escape` loses nothing: reading the escaped text back gives the
      original string, and stops exactly where the escaped text ends. */
  lemma {:induction false} ReadEscapedRoundTrip(x: string, rest: string)
    requires rest == [] || rest[0] == '('
    ensures ReadEscaped(Escape(x) + rest) == (x, rest)
    decreases |x|
  {
    if x != [] {
      ReadEscapedRoundTrip(x[1..], rest);
      assert Escape(x) + rest == EscapeChar(x[0]) + (Escape(x[1..]) + rest);
      ReadEscapedChar(x[0], Escape(x[1..]) + rest);
      assert [x[0]] + x[1..] == x;
    } else {
      assert Escape(x) + rest == rest;
    }
  }

  /** The reader accepts only what `re.escape` produces: whatever it reads
      is the escaping of the text it returns, followed by the rest. */
  lemma {:induction false} ReadEscapedIsEscape(s: string)
    ensures s == Escape(ReadEscaped(s).0) + ReadEscaped(s).1
    decreases |s|
  {
    if !EndsEscaped(s) {
      var c := if s[0] == '\\' then s[1] else s[0];
      var after := if s[0] == '\\' then s[2..] else s[1..];
      ReadEscapedIsEscape(after);
      var t := ReadEscaped(after).0;
      assert ([c] + t)[1..] == t;
      assert Escape([c] + t) == EscapeChar(c) + Escape(t);
      assert s == EscapeChar(c) + after;
    }
  }

  /** Two strings with the same escaping are equal. */
  lemma EscapeInjective(x: string, y: string)
    requires Escape(x) == Escape(y)
    ensures x == y
  {
    ReadEscapedRoundTrip(x, []);
    ReadEscapedRoundTrip(y, []);
    assert Escape(x) + [] == Escape(y) + [];
  }
}
