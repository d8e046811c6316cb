/** The few string operations the citation model needs: lower-casing,
    substring search, Python's `%d` formatting and `str.join`. */
module Text {
  import opened Options

  function LowerChar(c: char): char
  {
    if 'A' <= c <= 'Z' then (c as int + 32) as char else c
  }

  /** `str.lower`, on the ASCII letters (see README for why that suffices). */
  function Lower(s: string): (r: string)
    ensures |r| == |s|
    ensures forall i :: 0 <= i < |s| ==> r[i] == LowerChar(s[i])
  {
    seq(|s|, i requires 0 <= i < |s| => LowerChar(s[i]))
  }

  /** `sub` occurs in `s` starting at position `i`. */
  ghost predicate OccursAt(s: string, sub: string, i: int)
  {
    0 <= i && i + |sub| <= |s| && s[i..i + |sub|] == sub
  }

  /** Python's `sub in s` for strings, as a specification. */
  ghost predicate Contains(s: string, sub: string)
  {
    exists i :: OccursAt(s, sub, i)
  }

  /** An occurrence in `s` is one at the front or one in `s[1..]`. */
  lemma ContainsStep(s: string, sub: string)
    requires |s| > 0
    ensures Contains(s, sub) <==> OccursAt(s, sub, 0) || Contains(s[1..], sub)
  {
    if Contains(s[1..], sub) {
      var i :| OccursAt(s[1..], sub, i);
      assert s[i + 1..i + 1 + |sub|] == s[1..][i..i + |sub|];
      assert OccursAt(s, sub, i + 1);
    }
    if Contains(s, sub) && !OccursAt(s, sub, 0) {
      var i :| OccursAt(s, sub, i);
      assert s[1..][i - 1..i - 1 + |sub|] == s[i..i + |sub|];
      assert OccursAt(s[1..], sub, i - 1);
    }
  }

  /** Python's `sub in s`, computed by scanning `s` from the left. */
  function HasSubstring(s: string, sub: string): (b: bool)
    ensures b <==> Contains(s, sub)
    decreases |s|
  {
    if |sub| > |s| then
      assert forall i :: !OccursAt(s, sub, i);
      false
    else if s[..|sub|] == sub then
      assert OccursAt(s, sub, 0);
      true
    else
      ContainsStep(s, sub);
      HasSubstring(s[1..], sub)
  }

  function DigitChar(d: nat): char
    requires d < 10
  {
    ('0' as int + d) as char
  }

  predicate IsDigit(c: char)
  {
    '0' <= c <= '9'
  }

  /** Decimal digits of `n`, most significant first, without leading zeros. */
  function NatDigits(n: nat): (r: string)
    ensures 1 <= |r|
    ensures forall i :: 0 <= i < |r| ==> IsDigit(r[i])
    ensures n > 0 ==> r[0] != '0'
    decreases n
  {
    if n < 10 then [DigitChar(n)] else NatDigits(n / 10) + [DigitChar(n % 10)]
  }

  /** Python's `"%d" % n`: an optional minus sign and the decimal digits. */
  function FormatInt(n: int): (r: string)
    ensures 1 <= |r|
    ensures forall i :: 0 < i < |r| ==> IsDigit(r[i])
    ensures r[0] == '-' <==> n < 0
    ensures r[0] == '0' ==> r == "0"
    ensures n < 0 ==> |r| > 1 && r[1] != '0'
  {
    if n < 0 then
      var r := "-" + NatDigits(-n);
      assert r[1] == NatDigits(-n)[0];
      r
    else
      NatDigits(n)
  }

  /** The value of a string of decimal digits. */
  function DigitsValue(s: string): nat
    requires forall i :: 0 <= i < |s| ==> IsDigit(s[i])
  {
    if s == [] then
      0
    else
      assert IsDigit(s[|s| - 1]);
      DigitsValue(s[..|s| - 1]) * 10 + (s[|s| - 1] as int - '0' as int)
  }

  /** Reads back an integer written by `FormatInt`. */
  function ParseInt(s: string): Option<int>
  {
    if s == [] then
      None
    else if s[0] == '-' then
      if |s| > 1 && forall i :: 1 <= i < |s| ==> IsDigit(s[i]) then Some(0 - DigitsValue(s[1..]) as int) else None
    else
      if forall i :: 0 <= i < |s| ==> IsDigit(s[i]) then Some(DigitsValue(s)) else None
  }

  lemma {:induction false} NatDigitsValue(n: nat)
    ensures DigitsValue(NatDigits(n)) == n
    decreases n
  {
    var r := NatDigits(n);
    if n >= 10 {
      NatDigitsValue(n / 10);
      assert r[..|r| - 1] == NatDigits(n / 10);
    }
  }

  /** `%d` formatting is undone by `ParseInt`: a year printed in a citation
      can be read back exactly. */
  lemma FormatIntRoundTrip(n: int)
    ensures ParseInt(FormatInt(n)) == Some(n)
  {
    if n < 0 {
      NatDigitsValue(-n);
      assert FormatInt(n)[1..] == NatDigits(-n);
    } else {
      NatDigitsValue(n);
    }
  }

  /** Python's `sep.join(parts)`. */
  function Join(sep: string, parts: seq<string>): (r: string)
    ensures parts == [] ==> r == ""
    ensures |parts| == 1 ==> r == parts[0]
  {
    if parts == [] then "" else if |parts| == 1 then parts[0] else parts[0] + sep + Join(sep, parts[1..])
  }

  /** `sep.join([a, b])`. */
  lemma JoinPair(sep: string, a: string, b: string)
    ensures Join(sep, [a, b]) == a + sep + b
  {
    assert [a, b][1..] == [b];
  }

  /** `sep.join([a, b, c])`. */
  lemma JoinTriple(sep: string, a: string, b: string, c: string)
    ensures Join(sep, [a, b, c]) == a + sep + b + sep + c
  {
    assert [a, b, c][1..] == [b, c];
    JoinPair(sep, b, c);
  }

  /** Where the `i`-th part starts in `Join(sep, parts)`: after every
      earlier part and its separator. */
  ghost function JoinOffset(sep: string, parts: seq<string>, i: nat): nat
    requires i <= |parts|
  {
    if i == 0 then 0 else JoinOffset(sep, parts, i - 1) + |parts[i - 1]| + |sep|
  }

  lemma {:induction false} JoinOffsetTail(sep: string, parts: seq<string>, i: nat)
    requires 1 <= i <= |parts|
    ensures JoinOffset(sep, parts, i) == |parts[0]| + |sep| + JoinOffset(sep, parts[1..], i - 1)
  {
    if i > 1 {
      JoinOffsetTail(sep, parts, i - 1);
      assert parts[1..][i - 2] == parts[i - 1];
    }
  }

  /** An occurrence stays an occurrence when text is put in front. */
  lemma OccursAfter(a: string, t: string, sub: string, k: int)
    requires OccursAt(t, sub, k)
    ensures OccursAt(a + t, sub, |a| + k)
  {
    assert (a + t)[|a| + k..|a| + k + |sub|] == t[k..k + |sub|];
  }

  /** An occurrence stays an occurrence when text is put behind. */
  lemma OccursBefore(t: string, b: string, sub: string, k: int)
    requires OccursAt(t, sub, k)
    ensures OccursAt(t + b, sub, k)
  {
    assert (t + b)[k..k + |sub|] == t[k..k + |sub|];
  }

  /** `sep.join(parts)` is as long as its parts and the separators between them. */
  lemma {:induction false} JoinLength(sep: string, parts: seq<string>)
    requires parts != []
    ensures |Join(sep, parts)| + |sep| == JoinOffset(sep, parts, |parts|)
  {
    if |parts| > 1 {
      JoinLength(sep, parts[1..]);
      JoinOffsetTail(sep, parts, |parts|);
    }
  }

  /** In `sep.join(parts)` the `i`-th part starts at its offset and, unless
      it is the last, a separator follows it. */
  lemma {:induction false} JoinPartAt(sep: string, parts: seq<string>, i: nat)
    requires i < |parts|
    ensures OccursAt(Join(sep, parts), parts[i], JoinOffset(sep, parts, i))
    ensures i < |parts| - 1 ==> OccursAt(Join(sep, parts), sep, JoinOffset(sep, parts, i) + |parts[i]|)
  {
    var s := Join(sep, parts);
    if |parts| == 1 {
      assert s[0..|parts[0]|] == parts[0];
    } else {
      var tail := parts[1..];
      var j := Join(sep, tail);
      assert s == parts[0] + sep + j;
      if i == 0 {
        assert s[0..|parts[0]|] == parts[0];
        assert s[|parts[0]|..|parts[0]| + |sep|] == sep;
      } else {
        JoinPartAt(sep, tail, i - 1);
        JoinOffsetTail(sep, parts, i);
        assert tail[i - 1] == parts[i];
        OccursAfter(parts[0] + sep, j, parts[i], JoinOffset(sep, tail, i - 1));
        if i < |parts| - 1 {
          OccursAfter(parts[0] + sep, j, sep, JoinOffset(sep, tail, i - 1) + |parts[i]|);
        }
      }
    }
  }

  /** Between a head and a tail, the `i`-th part of `sep.join(parts)` sits
      at its offset after the head, and a separator follows it unless it is
      the last. */
  lemma JoinPartWithin(head: string, sep: string, parts: seq<string>, tail: string, i: nat)
    requires i < |parts|
    ensures OccursAt(head + (Join(sep, parts) + tail), parts[i], |head| + JoinOffset(sep, parts, i))
    ensures i < |parts| - 1
            ==> OccursAt(head + (Join(sep, parts) + tail), sep, |head| + (JoinOffset(sep, parts, i) + |parts[i]|))
  {
    JoinPartAt(sep, parts, i);
    PartWithin(head, Join(sep, parts), tail, parts[i], sep, JoinOffset(sep, parts, i), i < |parts| - 1);
  }

  /** A part at `k` of `t`, and the separator after it when `more` holds,
      stay in place, shifted by the head, when text is put on both sides. */
  lemma PartWithin(head: string, t: string, tail: string, part: string, sep: string, k: int, more: bool)
    requires OccursAt(t, part, k)
    requires more ==> OccursAt(t, sep, k + |part|)
    ensures OccursAt(head + (t + tail), part, |head| + k)
    ensures more ==> OccursAt(head + (t + tail), sep, |head| + (k + |part|))
  {
    OccursWithin(head, t, tail, part, k);
    if more {
      OccursWithin(head, t, tail, sep, k + |part|);
    }
  }

  /** An occurrence stays an occurrence, shifted by the head, when text is
      put on both sides. */
  lemma OccursWithin(head: string, t: string, tail: string, sub: string, k: int)
    requires OccursAt(t, sub, k)
    ensures OccursAt(head + (t + tail), sub, |head| + k)
  {
    OccursBefore(t, tail, sub, k);
    OccursAfter(head, t + tail, sub, k);
  }

  /** `s` starts with `prefix`. */
  predicate IsPrefix(prefix: string, s: string)
  {
    |prefix| <= |s| && s[..|prefix|] == prefix
  }

  /** `s` ends with `suffix`. */
  predicate IsSuffix(suffix: string, s: string)
  {
    |suffix| <= |s| && s[|s| - |suffix|..] == suffix
  }

  /** A suffix of `b` is a suffix of `a + b`. */
  lemma SuffixExtends(a: string, b: string, suffix: string)
    requires IsSuffix(suffix, b)
    ensures IsSuffix(suffix, a + b)
  {
    assert (a + b)[|a + b| - |suffix|..] == b[|b| - |suffix|..];
  }

  /** `prefix` removed from the front of `s`, if `s` starts with it. */
  function Strip(prefix: string, s: string): (r: Option<string>)
    ensures r.Some? ==> s == prefix + r.value
  {
    if |prefix| <= |s| && s[..|prefix|] == prefix then Some(s[|prefix|..]) else None
  }

  lemma StripPrefix(prefix: string, rest: string)
    ensures Strip(prefix, prefix + rest) == Some(rest)
  {
  }

  /** Splits `s` before the first `stop` character (or at its end). */
  function TakeUntil(s: string, stop: char): (p: (string, string))
    ensures p.0 + p.1 == s
    ensures stop !in p.0
    ensures p.1 == [] || p.1[0] == stop
    decreases |s|
  {
    if s == [] || s[0] == stop then
      ([], s)
    else
      var (v, rest) := TakeUntil(s[1..], stop);
      assert s == [s[0]] + s[1..];
      ([s[0]] + v, rest)
  }

  lemma {:induction false} TakeUntilRoundTrip(v: string, stop: char, rest: string)
    requires stop !in v
    requires rest == [] || rest[0] == stop
    ensures TakeUntil(v + rest, stop) == (v, rest)
    decreases |v|
  {
    if v == [] {
      assert v + rest == rest;
    } else {
      assert v[0] in v;
      assert (v + rest)[1..] == v[1..] + rest;
      assert forall c :: c in v[1..] ==> c in v;
      TakeUntilRoundTrip(v[1..], stop, rest);
      assert [v[0]] + v[1..] == v;
    }
  }

  /** Splits `s` around its last `stop` character, if it has one. */
  function SplitAtLast(s: string, stop: char): (r: Option<(string, string)>)
    ensures r.Some? ==> s == r.value.0 + [stop] + r.value.1 && stop !in r.value.1
    ensures r.None? <==> stop !in s
    decreases |s|
  {
    if s == [] then
      None
    else
      var last := s[|s| - 1];
      var init := s[..|s| - 1];
      assert s == init + [last];
      if last == stop then
        Some((init, []))
      else
        match SplitAtLast(init, stop)
        case None => None
        case Some((a, b)) => Some((a, b + [last]))
  }

  lemma {:induction false} SplitAtLastRoundTrip(a: string, stop: char, b: string)
    requires stop !in b
    ensures SplitAtLast(a + [stop] + b, stop) == Some((a, b))
    decreases |b|
  {
    var s := a + [stop] + b;
    if b == [] {
      assert s[..|s| - 1] == a;
    } else {
      var init := b[..|b| - 1];
      assert b[|b| - 1] in b;
      assert forall c :: c in init ==> c in b;
      SplitAtLastRoundTrip(a, stop, init);
      assert s[..|s| - 1] == a + [stop] + init;
      assert init + [b[|b| - 1]] == b;
    }
  }
}
