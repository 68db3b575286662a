/**
 * The string operations the chat handler and the ingestion code rely on:
 * Python's `str.join`, `str.endswith`, `str(int)`, and `str.lower` as far as
 * it matters for comparing with an ASCII literal.
 */
module Strings {
  import opened Common

  /** Python's `sep.join(parts)`. */
  function Join(sep: string, parts: seq<string>): (r: string)
    ensures |parts| == 1 ==> r == parts[0]
    decreases |parts|
  {
    if |parts| == 0 then ""
    else if |parts| == 1 then parts[0]
    else parts[0] + sep + Join(sep, parts[1..])
  }

  /** Python's `s.split(c)` for a one-character separator: always at least one piece. */
  function Split(s: string, c: char): (r: seq<string>)
    ensures |r| >= 1
    decreases |s|
  {
    if |s| == 0 then [""]
    else
      var rest := Split(s[1..], c);
      if s[0] == c then [""] + rest
      else [[s[0]] + rest[0]] + rest[1..]
  }

  /** Splitting a separator-free string yields that string alone. */
  lemma {:induction false} SplitWithoutSeparator(x: string, c: char)
    requires c !in x
    ensures Split(x, c) == [x]
    decreases |x|
  {
    if |x| > 0 {
      SplitWithoutSeparator(x[1..], c);
      assert [x[0]] + x[1..] == x;
    }
  }

  /** A separator right after a separator-free prefix cuts exactly there. */
  lemma {:induction false} SplitAtFirstSeparator(x: string, c: char, y: string)
    requires c !in x
    ensures Split(x + [c] + y, c) == [x] + Split(y, c)
    decreases |x|
  {
    if |x| == 0 {
      assert x + [c] + y == [c] + y;
      assert ([c] + y)[1..] == y;
    } else {
      assert (x + [c] + y)[1..] == x[1..] + [c] + y;
      SplitAtFirstSeparator(x[1..], c, y);
      assert [x[0]] + x[1..] == x;
    }
  }

  /**
   * Joining with a separator `[c] + glue` and splitting on `c` again recovers
   * every part, the later ones prefixed by `glue`.
   */
  lemma {:induction false} SplitJoin(c: char, glue: string, parts: seq<string>)
    requires c !in glue
    requires |parts| >= 1
    requires forall i :: 0 <= i < |parts| ==> c !in parts[i]
    ensures |Split(Join([c] + glue, parts), c)| == |parts|
    ensures Split(Join([c] + glue, parts), c)[0] == parts[0]
    ensures forall i :: 1 <= i < |parts| ==> Split(Join([c] + glue, parts), c)[i] == glue + parts[i]
    decreases |parts|
  {
    var sep := [c] + glue;
    if |parts| == 1 {
      SplitWithoutSeparator(parts[0], c);
    } else {
      var tail := parts[1..];
      var joinedTail := Join(sep, tail);
      var rest := glue + joinedTail;
      assert Join(sep, parts) == parts[0] + [c] + rest;
      SplitAtFirstSeparator(parts[0], c, rest);
      SplitJoin(c, glue, tail);
      SplitPrefixGlue(glue, joinedTail, c);
      var inner := Split(joinedTail, c);
      SplitJoinStep(parts[0], glue, inner, tail);
      assert [parts[0]] + tail == parts;
    }
  }

  /** Joining separator-free pieces with the bare separator and splitting again gives the pieces back. */
  lemma SplitJoinBare(c: char, parts: seq<string>)
    requires |parts| >= 1
    requires forall i :: 0 <= i < |parts| ==> c !in parts[i]
    ensures Split(Join([c], parts), c) == parts
  {
    assert [c] + "" == [c];
    SplitJoin(c, "", parts);
    var pieces := Split(Join([c], parts), c);
    forall i | 1 <= i < |parts| ensures pieces[i] == parts[i] {
      assert "" + parts[i] == parts[i];
    }
  }

  /** Bookkeeping for one step of `SplitJoin`: prepend a piece and glue a prefix onto the next. */
  lemma SplitJoinStep(first: string, glue: string, inner: seq<string>, tail: seq<string>)
    requires |inner| == |tail| >= 1 && inner[0] == tail[0]
    requires forall i :: 1 <= i < |tail| ==> inner[i] == glue + tail[i]
    ensures |[first] + ([glue + inner[0]] + inner[1..])| == |tail| + 1
    ensures forall i :: 1 <= i < |tail| + 1 ==> ([first] + ([glue + inner[0]] + inner[1..]))[i] == glue + ([first] + tail)[i]
  {
  }

  /** A separator-free prefix is glued onto the first piece of the split. */
  lemma {:induction false} SplitPrefixGlue(p: string, s: string, c: char)
    requires c !in p
    ensures Split(p + s, c) == [p + Split(s, c)[0]] + Split(s, c)[1..]
    decreases |p|
  {
    if |p| > 0 {
      assert (p + s)[1..] == p[1..] + s;
      SplitPrefixGlue(p[1..], s, c);
      assert [p[0]] + (p[1..] + Split(s, c)[0]) == p + Split(s, c)[0];
    } else {
      var pieces := Split(s, c);
      assert p + s == s;
      assert p + pieces[0] == pieces[0];
      assert [pieces[0]] + pieces[1..] == pieces;
    }
  }

  /** Python's `s.endswith(suffix)`. */
  predicate EndsWith(s: string, suffix: string) {
    |suffix| <= |s| && s[|s| - |suffix|..] == suffix
  }

  /** No name ends in both ".pdf" and ".csv": the two ingestion passes never both take a file. */
  lemma PdfAndCsvExclusive(name: string)
    ensures !(EndsWith(name, ".pdf") && EndsWith(name, ".csv"))
  {
    if EndsWith(name, ".pdf") {
      assert name[|name| - 1] == 'f';
    }
  }

  predicate IsDigit(c: char) {
    '0' <= c <= '9'
  }

  predicate AllDigits(s: string) {
    forall i :: 0 <= i < |s| ==> IsDigit(s[i])
  }

  function DigitChar(d: int): (c: char)
    requires 0 <= d < 10
    ensures IsDigit(c) && c as int - '0' as int == d
  {
    ('0' as int + d) as char
  }

  /** Decimal digits of a natural number, most significant first, without leading zeros. */
  function NatToString(n: nat): (r: string)
    ensures |r| >= 1 && AllDigits(r)
    ensures |r| > 1 ==> r[0] != '0'
    ensures r[0] == '0' <==> n == 0
    decreases n
  {
    if n < 10 then [DigitChar(n)] else NatToString(n / 10) + [DigitChar(n % 10)]
  }

  /** Python's `str(n)` for an integer. */
  function IntToString(n: int): (r: string)
    ensures |r| >= 1
    ensures n < 0 <==> r[0] == '-'
    ensures forall i :: 0 <= i < |r| ==> IsDigit(r[i]) || (i == 0 && r[i] == '-')
    ensures |r| > 1 ==> r[0] != '0'
    ensures n < 0 ==> |r| >= 2 && r[1] != '0'
  {
    if n < 0 then "-" + NatToString(-n) else NatToString(n)
  }

  /** The value of a string of decimal digits. */
  function DigitsValue(s: string): (value: nat)
    requires AllDigits(s)
    decreases |s|
  {
    if |s| == 0 then 0 else DigitsValue(s[..|s| - 1]) * 10 + (s[|s| - 1] as int - '0' as int)
  }

  /** Python's `int(s)` restricted to what `str(int)` produces: optional minus, then digits. */
  function ParseInt(s: string): (r: Option<int>)
    ensures r.Some? <==> (|s| >= 1 && AllDigits(s)) || (|s| >= 2 && s[0] == '-' && AllDigits(s[1..]))
  {
    if |s| >= 2 && s[0] == '-' && AllDigits(s[1..]) then
      var magnitude: int := DigitsValue(s[1..]); Some(-magnitude)
    else if |s| >= 1 && AllDigits(s) then Some(DigitsValue(s))
    else None
  }

  lemma {:induction false} NatToStringRoundTrip(n: nat)
    ensures DigitsValue(NatToString(n)) == n
    decreases n
  {
    if n >= 10 {
      var s := NatToString(n);
      assert s[..|s| - 1] == NatToString(n / 10);
      NatToStringRoundTrip(n / 10);
    }
  }

  /** Reading back a rendered integer gives the integer: `int(str(n)) == n`. */
  lemma IntToStringRoundTrip(n: int)
    ensures ParseInt(IntToString(n)) == Some(n)
  {
    if n < 0 {
      assert IntToString(n)[1..] == NatToString(-n);
      NatToStringRoundTrip(-n);
    } else {
      NatToStringRoundTrip(n);
    }
  }

  /** `str(n)` holds only digits and a leading minus sign. */
  lemma IntToStringAvoids(n: int, c: char)
    requires !IsDigit(c) && c != '-'
    ensures c !in IntToString(n)
  {
    var t := IntToString(n);
    forall j | 0 <= j < |t| ensures t[j] != c {
    }
  }

  /** A character in neither the separator nor any part is not in the join. */
  lemma {:induction false} JoinAvoids(sep: string, parts: seq<string>, c: char)
    requires c !in sep
    requires forall i :: 0 <= i < |parts| ==> c !in parts[i]
    ensures c !in Join(sep, parts)
    decreases |parts|
  {
    if |parts| > 1 {
      JoinAvoids(sep, parts[1..], c);
    }
  }

  /** Python's `str.lower` on one character, for the ASCII range. */
  function AsciiLower(c: char): (r: char)
    ensures 'A' <= c <= 'Z' ==> 'a' <= r <= 'z'
    ensures !('A' <= c <= 'Z') ==> r == c
  {
    if 'A' <= c <= 'Z' then (c as int + 32) as char else c
  }

  function Lower(s: string): (r: string)
    ensures |r| == |s|
  {
    seq(|s|, i requires 0 <= i < |s| => AsciiLower(s[i]))
  }
}
