/**
 * The PHP string built-ins the plugin relies on (`explode`, `implode`, `trim`,
 * `strtolower`, `str_replace`, `intval`, string conversion of integers) and
 * PHP's truthiness of strings, over `string` = `seq<char>`.
 */
module PhpStrings {

  /** `\w` in PCRE: an ASCII letter, digit or underscore. */
  predicate IsWordChar(c: char) {
    'a' <= c <= 'z' || 'A' <= c <= 'Z' || '0' <= c <= '9' || c == '_'
  }

  predicate IsDigit(c: char) {
    '0' <= c <= '9'
  }

  predicate AllDigits(s: string) {
    forall i :: 0 <= i < |s| ==> IsDigit(s[i])
  }

  /** PHP truthiness of a string: only "" and "0" are false. */
  predicate Truthy(s: string) {
    s != "" && s != "0"
  }

  /** `explode(sep, s)`: the pieces of `s` between occurrences of `sep`, scanning left to right. */
  function Explode(s: string, sep: string): (parts: seq<string>)
    requires sep != ""
    ensures |parts| >= 1
    decreases |s|
  {
    if |s| < |sep| then [s]
    else if s[..|sep|] == sep then [""] + Explode(s[|sep|..], sep)
    else
      var rest := Explode(s[1..], sep);
      [[s[0]] + rest[0]] + rest[1..]
  }

  /** `implode(sep, parts)`. */
  function Join(parts: seq<string>, sep: string): string
  {
    if |parts| == 0 then ""
    else if |parts| == 1 then parts[0]
    else parts[0] + sep + Join(parts[1..], sep)
  }

  lemma JoinCons(x: string, rest: seq<string>, sep: string)
    requires |rest| >= 1
    ensures Join([x] + rest, sep) == x + sep + Join(rest, sep)
  {
    assert ([x] + rest)[1..] == rest;
  }

  /** Joining one more piece adds the separator and the piece at the end. */
  lemma {:induction false} JoinSnoc(parts: seq<string>, x: string, sep: string)
    requires |parts| >= 1
    ensures Join(parts + [x], sep) == Join(parts, sep) + sep + x
    decreases |parts|
  {
    if |parts| == 1 {
      JoinCons(parts[0], [x], sep);
      assert parts + [x] == [parts[0]] + [x];
    } else {
      JoinSnoc(parts[1..], x, sep);
      JoinCons(parts[0], parts[1..] + [x], sep);
      assert parts + [x] == [parts[0]] + (parts[1..] + [x]);
      JoinCons(parts[0], parts[1..], sep);
      assert parts == [parts[0]] + parts[1..];
    }
  }

  /** Joining pieces whose first one starts with `c` is `c` before the join of the pieces without it. */
  lemma JoinConsChar(c: char, rest: seq<string>, sep: string)
    requires |rest| >= 1
    ensures Join([[c] + rest[0]] + rest[1..], sep) == [c] + Join(rest, sep)
  {
    var first := [c] + rest[0];
    if |rest| > 1 {
      JoinCons(first, rest[1..], sep);
      JoinCons(rest[0], rest[1..], sep);
      assert rest == [rest[0]] + rest[1..];
    } else {
      assert [first] + rest[1..] == [first];
    }
  }

  /** Joining pieces whose first one is empty starts with the separator. */
  lemma JoinConsEmpty(rest: seq<string>, sep: string)
    requires |rest| >= 1
    ensures Join([""] + rest, sep) == sep + Join(rest, sep)
  {
    JoinCons("", rest, sep);
    assert "" + sep == sep;
  }

  /** Exploding and joining again with the same separator gives back the input. */
  lemma {:induction false} JoinExplode(s: string, sep: string)
    requires sep != ""
    ensures Join(Explode(s, sep), sep) == s
    decreases |s|
  {
    if |s| < |sep| {
    } else if s[..|sep|] == sep {
      var tail := s[|sep|..];
      JoinExplode(tail, sep);
      JoinConsEmpty(Explode(tail, sep), sep);
      assert s == s[..|sep|] + tail;
    } else {
      var tail := s[1..];
      JoinExplode(tail, sep);
      JoinConsChar(s[0], Explode(tail, sep), sep);
      assert s == [s[0]] + tail;
    }
  }

  /** A string in which the separator's first character never occurs explodes to itself. */
  lemma {:induction false} ExplodeWithout(s: string, sep: string)
    requires sep != "" && sep[0] !in s
    ensures Explode(s, sep) == [s]
    decreases |s|
  {
    if |s| >= |sep| {
      assert s[..|sep|] != sep by { assert s[..|sep|][0] == s[0]; }
      ExplodeWithout(s[1..], sep);
      assert [s[0]] + s[1..] == s;
    }
  }

  /** The first occurrence of the separator ends the first piece. */
  lemma {:induction false} ExplodeAround(a: string, sep: string, b: string)
    requires sep != "" && sep[0] !in a
    ensures Explode(a + sep + b, sep) == [a] + Explode(b, sep)
    decreases |a|
  {
    var s := a + sep + b;
    if a == [] {
      assert s[..|sep|] == sep;
      assert s[|sep|..] == b;
    } else {
      assert s[..|sep|] != sep by { assert s[..|sep|][0] == a[0]; }
      assert s[1..] == a[1..] + sep + b;
      ExplodeAround(a[1..], sep, b);
      assert [a[0]] + a[1..] == a;
    }
  }

  /** The last piece is what follows the last occurrence of a one-character separator. */
  lemma {:induction false} ExplodeLast(a: string, c: char, b: string)
    requires c !in b
    ensures var parts := Explode(a + [c] + b, [c]); |parts| >= 2 && parts[|parts| - 1] == b
    decreases |a|
  {
    var s := a + [c] + b;
    if a == [] {
      ExplodeAround(a, [c], b);
      ExplodeWithout(b, [c]);
    } else {
      assert s[1..] == a[1..] + [c] + b;
      ExplodeLast(a[1..], c, b);
      if a[0] == c {
        assert s[..1] == [c];
      } else {
        assert s[..1] == [a[0]];
      }
    }
  }

  /** PHP's `trim` character list: space, tab, newline, carriage return, NUL and vertical tab. */
  predicate IsTrimmed(c: char) {
    c == ' ' || c == '\t' || c == '\n' || c == '\r' || c == '\0' || c == '\U{0B}'
  }

  function TrimLeft(s: string): (r: string)
    ensures |r| <= |s| && r == s[|s| - |r|..]
    ensures r == [] || !IsTrimmed(r[0])
  {
    if |s| > 0 && IsTrimmed(s[0]) then TrimLeft(s[1..]) else s
  }

  function TrimRight(s: string): (r: string)
    ensures |r| <= |s| && r == s[..|r|]
    ensures r == [] || !IsTrimmed(r[|r| - 1])
  {
    if |s| > 0 && IsTrimmed(s[|s| - 1]) then TrimRight(s[..|s| - 1]) else s
  }

  /** `trim(s)`: `s` without its leading and trailing whitespace; what remains is a run of `s`. */
  function Trim(s: string): (r: string)
    ensures r == [] || (!IsTrimmed(r[0]) && !IsTrimmed(r[|r| - 1]))
    ensures exists i :: OccursAt(s, r, i)
  {
    var l := TrimLeft(s);
    var r := TrimRight(l);
    var i := |s| - |l|;
    assert l == s[i..];
    assert s[i..i + |r|] == r;
    assert OccursAt(s, r, i);
    assert r != [] ==> r[0] == l[0];
    r
  }

  function LowerChar(c: char): char {
    if 'A' <= c <= 'Z' then (c as int - 'A' as int + 'a' as int) as char else c
  }

  /** `strtolower(s)`: ASCII upper-case letters become lower-case, nothing else changes. */
  function Lower(s: string): (r: string)
    ensures |r| == |s|
    ensures forall i :: 0 <= i < |s| ==> r[i] == LowerChar(s[i])
  {
    seq(|s|, i requires 0 <= i < |s| => LowerChar(s[i]))
  }

  /** `sub` occurs in `s` at position `i`. */
  predicate OccursAt(s: string, sub: string, i: int) {
    0 <= i <= |s| - |sub| && s[i..i + |sub|] == sub
  }

  /** `strpos(s, sub) !== false`. */
  predicate Contains(s: string, sub: string) {
    exists i | 0 <= i <= |s| - |sub| :: OccursAt(s, sub, i)
  }

  /** `str_replace('/', '\/', s)`: every slash gets a backslash in front of it. */
  function EscapeSlashes(s: string): (r: string)
    ensures |r| >= |s|
  {
    if s == [] then []
    else (if s[0] == '/' then "\\/" else [s[0]]) + EscapeSlashes(s[1..])
  }

  /** `str_replace('\', '', s)`: every backslash is dropped. */
  function RemoveBackslashes(s: string): (r: string)
    ensures '\\' !in r
    ensures |r| <= |s|
    ensures forall c :: c in s && c != '\\' ==> c in r
  {
    if s == [] then []
    else (if s[0] == '\\' then [] else [s[0]]) + RemoveBackslashes(s[1..])
  }

  /** Escaped slashes are read back by dropping the backslashes, when the input had none. */
  lemma {:induction false} RemoveBackslashesUndoesEscape(s: string)
    requires '\\' !in s
    ensures RemoveBackslashes(EscapeSlashes(s)) == s
  {
    if s != [] {
      RemoveBackslashesUndoesEscape(s[1..]);
      var head := if s[0] == '/' then "\\/" else [s[0]];
      assert EscapeSlashes(s) == head + EscapeSlashes(s[1..]);
      RemoveBackslashesAppend(head, EscapeSlashes(s[1..]));
      if s[0] == '/' {
        RemoveBackslashesAppend("\\", "/");
        assert "\\/" == "\\" + "/";
      }
      assert [s[0]] + s[1..] == s;
    }
  }

  lemma {:induction false} RemoveBackslashesAppend(a: string, b: string)
    ensures RemoveBackslashes(a + b) == RemoveBackslashes(a) + RemoveBackslashes(b)
  {
    if a != [] {
      assert (a + b)[1..] == a[1..] + b;
      RemoveBackslashesAppend(a[1..], b);
    } else {
      assert a + b == b;
    }
  }

  function DigitChar(d: nat): (c: char)
    requires d < 10
    ensures IsDigit(c) && c as int - '0' as int == d
  {
    ('0' as int + d) as char
  }

  /** The decimal digits of `n`, without leading zeros. */
  function NatToString(n: nat): (s: string)
    ensures |s| >= 1 && AllDigits(s)
  {
    if n < 10 then [DigitChar(n)] else NatToString(n / 10) + [DigitChar(n % 10)]
  }

  /** PHP's string conversion of an integer. */
  function IntToString(n: int): (s: string)
    ensures '/' !in s
  {
    if n < 0 then "-" + NatToString(-n) else NatToString(n)
  }

  /** The longest prefix of `s` made of decimal digits. */
  function LeadingDigits(s: string): (d: string)
    ensures AllDigits(d) && d <= s
  {
    if s != [] && IsDigit(s[0]) then [s[0]] + LeadingDigits(s[1..]) else []
  }

  function DigitsValue(d: string): nat
    requires AllDigits(d)
  {
    if d == [] then 0 else DigitsValue(d[..|d| - 1]) * 10 + (d[|d| - 1] as int - '0' as int)
  }

  predicate IsIntvalSpace(c: char) {
    c == ' ' || c == '\t' || c == '\n' || c == '\r' || c == '\U{0B}' || c == '\U{0C}'
  }

  function SkipSpaces(s: string): (r: string)
    ensures |r| <= |s| && r == s[|s| - |r|..]
  {
    if s != [] && IsIntvalSpace(s[0]) then SkipSpaces(s[1..]) else s
  }

  /** `intval(s)` for a string: optional leading whitespace and sign, then the leading digits (0 when there are none). */
  function IntVal(s: string): int
  {
    var t := SkipSpaces(s);
    if t != [] && t[0] == '-' then -(DigitsValue(LeadingDigits(t[1..])) as int)
    else if t != [] && t[0] == '+' then DigitsValue(LeadingDigits(t[1..]))
    else DigitsValue(LeadingDigits(t))
  }

  lemma {:induction false} LeadingDigitsOfDigits(d: string)
    requires AllDigits(d)
    ensures LeadingDigits(d) == d
  {
    if d != [] {
      LeadingDigitsOfDigits(d[1..]);
      assert [d[0]] + d[1..] == d;
    }
  }

  lemma {:induction false} NatToStringValue(n: nat)
    ensures DigitsValue(NatToString(n)) == n
  {
    if n >= 10 {
      NatToStringValue(n / 10);
      var s := NatToString(n);
      assert s[..|s| - 1] == NatToString(n / 10);
    }
  }

  lemma IntValOfDigits(d: string)
    requires d != [] && AllDigits(d)
    ensures IntVal(d) == DigitsValue(d)
  {
    assert IsDigit(d[0]);
    assert SkipSpaces(d) == d;
    LeadingDigitsOfDigits(d);
  }

  lemma IntValOfNegated(d: string)
    requires d != [] && AllDigits(d)
    ensures IntVal("-" + d) == -(DigitsValue(d) as int)
  {
    var s := "-" + d;
    assert SkipSpaces(s) == s;
    assert s[1..] == d;
    LeadingDigitsOfDigits(d);
  }

  /** `intval` reads back PHP's string form of every integer. */
  lemma IntValOfIntToString(n: int)
    ensures IntVal(IntToString(n)) == n
  {
    if n < 0 {
      var d := NatToString(-n);
      assert IntToString(n) == "-" + d;
      IntValOfNegated(d);
      NatToStringValue(-n);
    } else {
      var d := NatToString(n);
      assert IntToString(n) == d;
      IntValOfDigits(d);
      NatToStringValue(n);
    }
  }
}
