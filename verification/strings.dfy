/**
 * Text primitives the Python code takes from its runtime: `str.split(sep)`,
 * `sep.join(...)`, the whitespace tests behind `str.strip()`, ASCII case
 * folding (what `re.IGNORECASE` does for a pattern compiled without
 * `re.UNICODE` under Python 2) and decimal rendering/parsing of ids.
 */
module Strings {

  datatype Option<+T> = None | Some(value: T)

  /** The characters Python 2's `unicode.strip()` removes (Py_UNICODE_ISSPACE). */
  predicate IsSpace(c: char)
  {
    || ('\t' <= c <= '\r')
    || ('\U{1C}' <= c <= ' ')
    || c == '\U{85}' || c == '\U{A0}' || c == '\U{1680}' || c == '\U{180E}'
    || ('\U{2000}' <= c <= '\U{200A}')
    || c == '\U{2028}' || c == '\U{2029}' || c == '\U{202F}' || c == '\U{205F}' || c == '\U{3000}'
  }

  /** `len(line.strip()) == 0` */
  predicate IsBlank(line: string)
  {
    forall k :: 0 <= k < |line| ==> IsSpace(line[k])
  }

  /** `line.rstrip()` */
  function RStrip(line: string): (r: string)
    ensures |r| <= |line| && r == line[..|r|]
    ensures r == [] || !IsSpace(r[|r| - 1])
    ensures forall k :: |r| <= k < |line| ==> IsSpace(line[k])
  {
    if line == [] then []
    else if IsSpace(line[|line| - 1]) then RStrip(line[..|line| - 1])
    else line
  }

  /** `line.strip().endswith(':')`: the last non-whitespace character is a colon. */
  predicate EndsWithColonStripped(line: string)
  {
    var t := RStrip(line);
    |t| > 0 && t[|t| - 1] == ':'
  }

  /** `line.startswith('>')` */
  predicate StartsWithQuote(line: string)
  {
    |line| > 0 && line[0] == '>'
  }

  /** Python's `s.split(sep)`: the pieces between separators; `""` splits into `[""]`. */
  function SplitOn(sep: char, s: string): (r: seq<string>)
    ensures |r| >= 1
    ensures forall k :: 0 <= k < |r| ==> sep !in r[k]
  {
    if s == [] then [[]]
    else
      var rest := SplitOn(sep, s[1..]);
      if s[0] == sep then [[]] + rest
      else [[s[0]] + rest[0]] + rest[1..]
  }

  /** Python's `sep.join(parts)` for a one-character separator. */
  function JoinWith(sep: char, parts: seq<string>): string
  {
    if parts == [] then []
    else if |parts| == 1 then parts[0]
    else parts[0] + [sep] + JoinWith(sep, parts[1..])
  }

  /** Joining the pieces of a split gives the text back. */
  lemma {:induction false} JoinSplit(sep: char, s: string)
    ensures JoinWith(sep, SplitOn(sep, s)) == s
  {
    if s != [] {
      var rest := SplitOn(sep, s[1..]);
      JoinSplit(sep, s[1..]);
      if s[0] == sep {
        assert SplitOn(sep, s) == [[]] + rest;
        assert JoinWith(sep, SplitOn(sep, s)) == [] + [sep] + JoinWith(sep, rest);
      } else {
        assert SplitOn(sep, s) == [[s[0]] + rest[0]] + rest[1..];
        if |rest| == 1 {
          assert JoinWith(sep, SplitOn(sep, s)) == [s[0]] + rest[0];
        } else {
          assert JoinWith(sep, rest) == rest[0] + [sep] + JoinWith(sep, rest[1..]);
          assert JoinWith(sep, SplitOn(sep, s)) == ([s[0]] + rest[0]) + [sep] + JoinWith(sep, rest[1..]);
        }
      }
    }
  }

  lemma {:induction false} SplitPrefix(sep: char, a: string, b: string)
    requires sep !in a
    ensures SplitOn(sep, a + b) == [a + SplitOn(sep, b)[0]] + SplitOn(sep, b)[1..]
  {
    if a != [] {
      var r := SplitOn(sep, b);
      assert (a + b)[1..] == a[1..] + b;
      assert (a + b)[0] == a[0] && a[0] != sep;
      SplitPrefix(sep, a[1..], b);
      var rest := SplitOn(sep, a[1..] + b);
      assert rest == [a[1..] + r[0]] + r[1..];
      assert SplitOn(sep, a + b) == [[a[0]] + rest[0]] + rest[1..];
      assert [a[0]] + (a[1..] + r[0]) == a + r[0];
    } else {
      var r := SplitOn(sep, b);
      assert a + b == b && a + r[0] == r[0];
      assert r == [r[0]] + r[1..];
    }
  }

  /** Splitting joined separator-free pieces gives the pieces back. */
  lemma {:induction false} SplitJoin(sep: char, parts: seq<string>)
    requires |parts| >= 1
    requires forall k :: 0 <= k < |parts| ==> sep !in parts[k]
    ensures SplitOn(sep, JoinWith(sep, parts)) == parts
  {
    if |parts| == 1 {
      SplitPrefix(sep, parts[0], []);
      assert parts[0] + [] == parts[0];
    } else {
      var tail := JoinWith(sep, parts[1..]);
      SplitJoin(sep, parts[1..]);
      assert JoinWith(sep, parts) == parts[0] + ([sep] + tail);
      SplitPrefix(sep, parts[0], [sep] + tail);
      assert ([sep] + tail)[1..] == tail;
      assert SplitOn(sep, [sep] + tail) == [[]] + parts[1..];
      assert parts[0] + [] == parts[0];
    }
  }

  /** ASCII-only lower-casing. */
  function LowerChar(c: char): char
  {
    if 'A' <= c <= 'Z' then (c as int - 'A' as int + 'a' as int) as char else c
  }

  function LowerAscii(s: string): (r: string)
    ensures |r| == |s|
    ensures forall k :: 0 <= k < |s| ==> r[k] == LowerChar(s[k])
  {
    if s == [] then [] else [LowerChar(s[0])] + LowerAscii(s[1..])
  }

  predicate IsDigit(c: char) { '0' <= c <= '9' }

  predicate IsAsciiAlnum(c: char) { IsDigit(c) || 'a' <= c <= 'z' || 'A' <= c <= 'Z' }

  /** `int(digits)` for a run of ASCII digits. */
  function DecimalValue(digits: string): nat
  {
    if digits == [] then 0
    else
      var last := digits[|digits| - 1];
      DecimalValue(digits[..|digits| - 1]) * 10 + (if IsDigit(last) then last as int - '0' as int else 0)
  }

  /** `str(n)` for a natural number. */
  function NatToString(n: nat): (r: string)
    ensures |r| >= 1
    ensures forall k :: 0 <= k < |r| ==> IsDigit(r[k])
  {
    var d := ['0', '1', '2', '3', '4', '5', '6', '7', '8', '9'][n % 10];
    if n < 10 then [d] else NatToString(n / 10) + [d]
  }

  /** Rendering a number and parsing it back gives the number. */
  lemma {:induction false} DecimalOfNatToString(n: nat)
    ensures DecimalValue(NatToString(n)) == n
  {
    var d := ['0', '1', '2', '3', '4', '5', '6', '7', '8', '9'][n % 10];
    assert d as int - '0' as int == n % 10;
    if n >= 10 {
      var r := NatToString(n);
      DecimalOfNatToString(n / 10);
      assert r[..|r| - 1] == NatToString(n / 10);
    }
  }

  /** A join of non-empty parts is empty exactly when there are no parts. */
  lemma {:induction false} JoinWithEmptyIff(sep: char, parts: seq<string>)
    requires forall k :: 0 <= k < |parts| ==> |parts[k]| > 0
    ensures JoinWith(sep, parts) == [] <==> parts == []
  {
    if |parts| > 1 {
      assert |JoinWith(sep, parts)| >= |parts[0]|;
    }
  }

  /** Length of the longest run of characters satisfying `p` that starts at `j`. */
  function RunLength(s: string, j: nat, p: char -> bool): (n: nat)
    requires j <= |s|
    ensures j + n <= |s|
    ensures forall k :: j <= k < j + n ==> p(s[k])
    ensures j + n == |s| || !p(s[j + n])
    decreases |s| - j
  {
    if j == |s| || !p(s[j]) then 0 else 1 + RunLength(s, j + 1, p)
  }

  /** A run is determined by where it stops. */
  lemma {:induction false} RunLengthExact(s: string, j: nat, p: char -> bool, n: nat)
    requires j + n <= |s|
    requires forall k :: j <= k < j + n ==> p(s[k])
    requires j + n == |s| || !p(s[j + n])
    ensures RunLength(s, j, p) == n
    decreases n
  {
    if n > 0 {
      RunLengthExact(s, j + 1, p, n - 1);
    }
  }
}
