/** The few java.lang.String and java.lang.Integer operations the chat server relies on,
    stated over Dafny strings (sequences of characters). */
module JavaStrings {

  /** `s.replace(from, to)` for one-character arguments: every `from` becomes `to`. */
  function ReplaceChar(s: string, from: char, to: char): (r: string)
    ensures |r| == |s|
    ensures forall i :: 0 <= i < |s| ==> r[i] == (if s[i] == from then to else s[i])
    ensures from != to ==> from !in r
  {
    if s == [] then [] else [if s[0] == from then to else s[0]] + ReplaceChar(s[1..], from, to)
  }

  /** A string without `from` is recovered from its replacement by the reverse replacement,
      so the replacement is injective on such strings. */
  lemma ReplaceCharInjective(s: string, t: string, from: char, to: char)
    requires to !in s && to !in t
    requires ReplaceChar(s, from, to) == ReplaceChar(t, from, to)
    ensures s == t
  {
    var r := ReplaceChar(s, from, to);
    forall i | 0 <= i < |s|
      ensures s[i] == t[i]
    {
      assert r[i] == (if s[i] == from then to else s[i]);
      assert r[i] == (if t[i] == from then to else t[i]);
      assert s[i] != to && t[i] != to;
    }
  }

  predicate IsDigit(c: char) {
    '0' <= c <= '9'
  }

  function DigitChar(d: int): (c: char)
    requires 0 <= d < 10
    ensures IsDigit(c)
  {
    (d + '0' as int) as char
  }

  function DigitValue(c: char): (d: nat)
    requires IsDigit(c)
    ensures d < 10 && DigitChar(d) == c
  {
    c as int - '0' as int
  }

  /** Decimal digits of a non-negative number, most significant first, no leading zero. */
  function NatToString(n: nat): (r: string)
    ensures |r| >= 1
    ensures forall i :: 0 <= i < |r| ==> IsDigit(r[i])
    ensures |r| > 1 ==> r[0] != '0'
    decreases n
  {
    if n < 10 then [DigitChar(n)] else NatToString(n / 10) + [DigitChar(n % 10)]
  }

  /** `Integer.toString(n)`, which is what `"..." + n` uses for an `int`. */
  function IntToString(n: int): (r: string)
    ensures |r| >= 1
    ensures '_' !in r && '.' !in r && ' ' !in r
    ensures n >= 0 <==> IsDigit(r[0])
    ensures n < 0 <==> r[0] == '-'
    ensures forall i :: 1 <= i < |r| ==> IsDigit(r[i])
  {
    if n < 0 then "-" + NatToString(-n) else NatToString(n)
  }

  /** Reads decimal digits back; the inverse of NatToString. */
  function ParseNat(s: string): nat
    requires forall i :: 0 <= i < |s| ==> IsDigit(s[i])
  {
    if s == [] then 0 else 10 * ParseNat(s[..|s| - 1]) + DigitValue(s[|s| - 1])
  }

  /** Reads an optionally negative decimal number back; the inverse of IntToString. */
  function ParseInt(s: string): int
    requires |s| >= 1
    requires forall i :: 1 <= i < |s| ==> IsDigit(s[i])
    requires IsDigit(s[0]) || s[0] == '-'
  {
    if s[0] == '-' then -(ParseNat(s[1..]) as int) else ParseNat(s)
  }

  lemma {:induction false} NatToStringRoundTrip(n: nat)
    ensures ParseNat(NatToString(n)) == n
    decreases n
  {
    if n >= 10 {
      var front := NatToString(n / 10);
      var r := front + [DigitChar(n % 10)];
      assert r[..|r| - 1] == front;
      NatToStringRoundTrip(n / 10);
    }
  }

  lemma IntToStringRoundTrip(n: int)
    ensures ParseInt(IntToString(n)) == n
  {
    if n < 0 {
      var digits := NatToString(-n);
      assert ("-" + digits)[1..] == digits;
      NatToStringRoundTrip(-n);
    } else {
      NatToStringRoundTrip(n);
    }
  }

  /** Integer.toString never prints two numbers the same way. */
  lemma IntToStringInjective(m: int, n: int)
    requires IntToString(m) == IntToString(n)
    ensures m == n
  {
    IntToStringRoundTrip(m);
    IntToStringRoundTrip(n);
  }

  /** The parts joined back together with `sep` between neighbours. */
  function JoinWith(parts: seq<string>, sep: char): string
    requires |parts| >= 1
  {
    if |parts| == 1 then parts[0] else parts[0] + [sep] + JoinWith(parts[1..], sep)
  }

  lemma JoinWithCons(head: string, rest: seq<string>, sep: char)
    requires |rest| >= 1
    ensures JoinWith([head] + rest, sep) == head + [sep] + JoinWith(rest, sep)
  {
    assert ([head] + rest)[1..] == rest;
  }

  /** Putting a character in front of the first part puts it in front of the joined string. */
  lemma JoinWithPrepend(c: char, parts: seq<string>, sep: char)
    requires |parts| >= 1
    ensures JoinWith([[c] + parts[0]] + parts[1..], sep) == [c] + JoinWith(parts, sep)
  {
    if |parts| > 1 {
      JoinWithCons([c] + parts[0], parts[1..], sep);
    }
  }

  /** `s.split(sep, limit)` for a positive limit and a one-character separator that is not
      a regular-expression metacharacter: at most `limit - 1` splits, taken from the left,
      empty parts kept (a positive limit keeps trailing empty strings), and `[s]` when `sep`
      does not occur. Stated character by character. */
  function SplitLimit(s: string, sep: char, limit: nat): (parts: seq<string>)
    requires limit >= 1
    ensures 1 <= |parts| <= limit
    decreases |s|
  {
    if s == [] then [""]
    else if s[0] == sep && limit > 1 then [""] + SplitLimit(s[1..], sep, limit - 1)
    else
      var r := SplitLimit(s[1..], sep, limit);
      [[s[0]] + r[0]] + r[1..]
  }

  /** Joining the parts with `sep` gives `s` back: the split loses no character. */
  lemma {:induction false} SplitLimitJoin(s: string, sep: char, limit: nat)
    requires limit >= 1
    ensures JoinWith(SplitLimit(s, sep, limit), sep) == s
    decreases |s|
  {
    if s == [] {
    } else if s[0] == sep && limit > 1 {
      SplitLimitJoin(s[1..], sep, limit - 1);
      JoinWithCons("", SplitLimit(s[1..], sep, limit - 1), sep);
      assert s == [sep] + s[1..];
    } else {
      SplitLimitJoin(s[1..], sep, limit);
      JoinWithPrepend(s[0], SplitLimit(s[1..], sep, limit), sep);
      assert s == [s[0]] + s[1..];
    }
  }

  /** No part but the last holds `sep`, and the last holds one only when the limit
      was reached. */
  lemma {:induction false} SplitLimitParts(s: string, sep: char, limit: nat)
    requires limit >= 1
    ensures forall k :: 0 <= k < |SplitLimit(s, sep, limit)| - 1 ==> sep !in SplitLimit(s, sep, limit)[k]
    ensures |SplitLimit(s, sep, limit)| < limit ==> sep !in SplitLimit(s, sep, limit)[|SplitLimit(s, sep, limit)| - 1]
    decreases |s|
  {
    if s == [] {
    } else if s[0] == sep && limit > 1 {
      var r := SplitLimit(s[1..], sep, limit - 1);
      SplitLimitParts(s[1..], sep, limit - 1);
      var parts := [""] + r;
      assert forall k :: 1 <= k < |parts| ==> parts[k] == r[k - 1];
    } else {
      var r := SplitLimit(s[1..], sep, limit);
      SplitLimitParts(s[1..], sep, limit);
      var parts := [[s[0]] + r[0]] + r[1..];
      assert forall k :: 1 <= k < |parts| ==> parts[k] == r[k];
    }
  }

  /** Without a separator to cut at, or with no cut allowed, the whole string is the one part. */
  lemma {:induction false} SplitLimitWhole(s: string, sep: char, limit: nat)
    requires limit >= 1
    requires limit == 1 || sep !in s
    ensures SplitLimit(s, sep, limit) == [s]
    decreases |s|
  {
    if s != [] {
      SplitLimitWhole(s[1..], sep, limit);
      assert s == [s[0]] + s[1..];
    }
  }

  /** The facts SplitLimitJoin and SplitLimitParts state pin the result down: no other
      list of parts has them. */
  lemma {:induction false} SplitLimitUnique(s: string, sep: char, limit: nat, parts: seq<string>)
    requires limit >= 1 && 1 <= |parts| <= limit
    requires JoinWith(parts, sep) == s
    requires forall k :: 0 <= k < |parts| - 1 ==> sep !in parts[k]
    requires |parts| < limit ==> sep !in parts[|parts| - 1]
    ensures parts == SplitLimit(s, sep, limit)
    decreases |s|
  {
    if |parts| == 1 {
      SplitLimitWhole(s, sep, limit);
    } else {
      var head, rest := parts[0], parts[1..];
      assert parts == [head] + rest;
      JoinWithCons(head, rest, sep);
      if head == [] {
        assert s == [sep] + JoinWith(rest, sep);
        assert s[1..] == JoinWith(rest, sep);
        assert forall k :: 0 <= k < |rest| - 1 ==> rest[k] == parts[k + 1];
        SplitLimitUnique(s[1..], sep, limit - 1, rest);
      } else {
        var shorter := [head[1..]] + rest;
        JoinWithCons(head[1..], rest, sep);
        assert head == [head[0]] + head[1..];
        assert s == [head[0]] + JoinWith(shorter, sep);
        assert s[1..] == JoinWith(shorter, sep);
        assert forall k :: 1 <= k < |shorter| ==> shorter[k] == parts[k];
        assert head[0] in head;
        SplitLimitUnique(s[1..], sep, limit, shorter);
      }
    }
  }

  /** The split stops short of `limit` parts exactly when `s` holds fewer than
      `limit - 1` separators. */
  lemma {:induction false} SplitLimitCount(s: string, sep: char, limit: nat)
    requires limit >= 1
    ensures |SplitLimit(s, sep, limit)| < limit <==> multiset(s)[sep] < limit - 1
    decreases |s|
  {
    if s != [] {
      assert s == [s[0]] + s[1..];
      if s[0] == sep && limit > 1 {
        SplitLimitCount(s[1..], sep, limit - 1);
      } else {
        SplitLimitCount(s[1..], sep, limit);
      }
    }
  }
}
