/** The handful of Python string operations the modelled code relies on:
    `int()` on text, `str(n)`, `str.split`, `str.join`, `str.strip`,
    `str.replace`, `str.startswith` and the `in` operator on strings.

    Only ASCII is modelled: digits are '0'..'9', letters are 'A'..'Z' and
    'a'..'z', and the white space `int()` skips is that of C's `isspace`. */
module Text {
  import opened Common

  type String = seq<char>

  predicate IsDigit(c: char) { '0' <= c <= '9' }
  predicate IsUpper(c: char) { 'A' <= c <= 'Z' }
  predicate IsLower(c: char) { 'a' <= c <= 'z' }

  /** The characters `int()` skips at both ends of its argument: the six of
      C's `isspace` (space, tab, newline, vertical tab, form feed, carriage
      return). The separators U+001C..U+001F, which `str.isspace` accepts, are
      passed through unchanged below code point 127 and make `int()` fail. */
  const IntSpace: set<char> := {' ', '\t', '\n', '\r', '\U{000B}', '\U{000C}'}

  /** No digit is whitespace. */
  lemma DigitNotSpace(c: char)
    requires IsDigit(c)
    ensures c !in IntSpace
  {
  }

  /** A digit string contains no character that is not a digit. */
  lemma DigitsExclude(s: String, c: char)
    requires AllDigits(s) && !IsDigit(c)
    ensures c !in s
  {
    forall i | 0 <= i < |s| ensures s[i] != c {
      assert IsDigit(s[i]);
    }
  }

  predicate AllDigits(s: String) {
    forall i :: 0 <= i < |s| ==> IsDigit(s[i])
  }

  function DigitValue(c: char): nat
    requires IsDigit(c)
  {
    c as int - '0' as int
  }

  function DigitChar(d: nat): (c: char)
    requires d < 10
    ensures IsDigit(c) && DigitValue(c) == d
  {
    ('0' as int + d) as char
  }

  /** The number a string of decimal digits denotes (most significant digit first). */
  function DigitsValue(s: String): nat
    requires AllDigits(s)
  {
    if |s| == 0 then 0 else DigitsValue(s[..|s| - 1]) * 10 + DigitValue(s[|s| - 1])
  }

  /** `str(n)` for a non-negative integer: its shortest decimal rendering. */
  function Decimal(n: nat): (s: String)
    ensures |s| > 0 && AllDigits(s)
    ensures DigitsValue(s) == n
    ensures s[0] == '0' ==> n == 0
    ensures |s| == 1 <==> n < 10
    ensures 10 <= n < 100 ==> |s| == 2
  {
    if n < 10 then [DigitChar(n)]
    else
      var prefix := Decimal(n / 10);
      assert (prefix + [DigitChar(n % 10)])[..|prefix|] == prefix;
      prefix + [DigitChar(n % 10)]
  }

  /** A leading zero does not change the value of a digit string. */
  lemma {:induction false} LeadingZero(s: String)
    requires AllDigits(s)
    ensures AllDigits("0" + s) && DigitsValue("0" + s) == DigitsValue(s)
  {
    if |s| > 0 {
      var t := "0" + s;
      assert t[..|t| - 1] == "0" + s[..|s| - 1];
      LeadingZero(s[..|s| - 1]);
    }
  }

  // ---------------------------------------------------------------- strip

  /** `s.lstrip(cs)`. */
  function TrimLeft(s: String, cs: set<char>): (r: String)
    ensures |r| <= |s| && r == s[|s| - |r|..]
    ensures forall k :: 0 <= k < |s| - |r| ==> s[k] in cs
    ensures |r| > 0 ==> r[0] !in cs
  {
    if |s| > 0 && s[0] in cs then TrimLeft(s[1..], cs) else s
  }

  /** `s.rstrip(cs)`. */
  function TrimRight(s: String, cs: set<char>): (r: String)
    ensures |r| <= |s| && r == s[..|r|]
    ensures forall k :: |r| <= k < |s| ==> s[k] in cs
    ensures |r| > 0 ==> r[|r| - 1] !in cs
  {
    if |s| > 0 && s[|s| - 1] in cs then TrimRight(s[..|s| - 1], cs) else s
  }

  /** `s.strip(cs)`: the infix left after removing characters of `cs` from both ends. */
  function Strip(s: String, cs: set<char>): String {
    TrimRight(TrimLeft(s, cs), cs)
  }

  /** `r` is `s` with the first `i` characters and everything after `i + |r|`
      removed, all of them in `cs`, and neither end of `r` in `cs`. */
  predicate StrippedAt(s: String, cs: set<char>, r: String, i: int) {
    && 0 <= i <= |s| - |r| && r == s[i..i + |r|]
    && (forall k :: 0 <= k < i ==> s[k] in cs)
    && (forall k :: i + |r| <= k < |s| ==> s[k] in cs)
    && (|r| > 0 ==> r[0] !in cs && r[|r| - 1] !in cs)
  }

  /** Stripping keeps a contiguous part of the input, drops only characters of
      `cs`, and leaves neither end in `cs`. */
  lemma StripSpec(s: String, cs: set<char>) returns (i: nat)
    ensures StrippedAt(s, cs, Strip(s, cs), i)
  {
    var l := TrimLeft(s, cs);
    var r := TrimRight(l, cs);
    i := |s| - |l|;
    assert l == s[i..] && r == l[..|r|];
    assert r == s[i..i + |r|];
    forall k | i + |r| <= k < |s| ensures s[k] in cs {
      assert s[k] == l[k - i];
    }
    if |r| > 0 {
      assert r[0] == l[0];
    }
  }

  /** Text whose ends are outside `cs` is left as it is. */
  lemma StripUnchanged(s: String, cs: set<char>)
    requires |s| == 0 || (s[0] !in cs && s[|s| - 1] !in cs)
    ensures Strip(s, cs) == s
  {
  }

  // ---------------------------------------------------------------- int()

  /** `t` is an integer literal of value `v`: an optional sign followed by at
      least one decimal digit, and nothing else. */
  predicate IntLiteral(t: String, v: int) {
    || (|t| > 0 && AllDigits(t) && v == DigitsValue(t))
    || (|t| > 1 && t[0] == '+' && AllDigits(t[1..]) && v == DigitsValue(t[1..]))
    || (|t| > 1 && t[0] == '-' && AllDigits(t[1..]) && v == -(DigitsValue(t[1..]) as int))
  }

  /** Python's `int(s)` on a string, restricted to ASCII: surrounding whitespace,
      an optional sign and at least one decimal digit. `None` is the ValueError:
      it is returned exactly when the text left after skipping white space at
      both ends is no integer literal. */
  function ParseInt(s: String): (r: Option<int>)
    ensures r.Some? ==> IntLiteral(Strip(s, IntSpace), r.value)
    ensures r.None? ==> forall v :: !IntLiteral(Strip(s, IntSpace), v)
  {
    var t := Strip(s, IntSpace);
    if |t| > 0 && (t[0] == '+' || t[0] == '-') then
      var body := t[1..];
      if |body| > 0 && AllDigits(body) then
        var v: int := DigitsValue(body);
        Some(if t[0] == '-' then -v else v)
      else None
    else if |t| > 0 && AllDigits(t) then Some(DigitsValue(t))
    else None
  }

  /** `int()` reads a plain digit string as the number it denotes. */
  lemma ParseDigits(s: String)
    requires |s| > 0 && AllDigits(s)
    ensures ParseInt(s) == Some(DigitsValue(s) as int)
  {
    DigitNotSpace(s[0]);
    DigitNotSpace(s[|s| - 1]);
    StripUnchanged(s, IntSpace);
    assert s[0] != '+' && s[0] != '-' by { assert IsDigit(s[0]); }
  }

  /** `int(str(n)) == n`, and likewise with a leading zero in front. */
  lemma ParseDecimal(n: nat)
    ensures ParseInt(Decimal(n)) == Some(n)
    ensures ParseInt("0" + Decimal(n)) == Some(n)
  {
    ParseDigits(Decimal(n));
    LeadingZero(Decimal(n));
    ParseDigits("0" + Decimal(n));
  }

  /** A string holding a character that is neither a digit, a sign nor
      whitespace is not an integer. */
  lemma ParseIntRejects(s: String, k: nat)
    requires k < |s| && !IsDigit(s[k]) && s[k] !in IntSpace && s[k] != '+' && s[k] != '-'
    ensures ParseInt(s) == None
  {
    var i := StripSpec(s, IntSpace);
    var t := Strip(s, IntSpace);
    assert i <= k < i + |t|;
    assert t[k - i] == s[k];
    if |t| > 0 && (t[0] == '+' || t[0] == '-') {
      assert k - i >= 1;
      assert t[1..][k - i - 1] == s[k];
    }
  }

  /** The information separators U+001C..U+001F are not white space to
      `int()`: one in front of any text makes it fail. */
  lemma SeparatorRejected(s: String, c: char)
    requires '\U{001C}' <= c <= '\U{001F}'
    ensures ParseInt([c] + s) == None
  {
    ParseIntRejects([c] + s, 0);
  }

  // ---------------------------------------------------------------- search

  /** Python's `p in s` for a non-empty pattern. */
  predicate Contains(s: String, p: String)
    requires |p| > 0
    decreases |s|
  {
    p <= s || (|s| > 0 && Contains(s[1..], p))
  }

  /** `p` occurs in `s` at position `i`. */
  predicate OccursAt(s: String, p: String, i: int) {
    0 <= i <= |s| - |p| && s[i..i + |p|] == p
  }

  /** When `p in s` holds, `p` sits at some position of `s`. */
  lemma {:induction false} ContainsWitness(s: String, p: String) returns (i: nat)
    requires |p| > 0 && Contains(s, p)
    ensures OccursAt(s, p, i)
    decreases |s|
  {
    if p <= s {
      i := 0;
    } else {
      var j := ContainsWitness(s[1..], p);
      assert s[1..][j..j + |p|] == s[j + 1..j + 1 + |p|];
      i := j + 1;
    }
  }

  /** A pattern holding a character the text lacks is not in the text. */
  lemma NotContains(s: String, p: String, c: char)
    requires |p| > 0 && c in p && c !in s
    ensures !Contains(s, p)
  {
    var j :| 0 <= j < |p| && p[j] == c;
    forall i | 0 <= i <= |s| - |p| ensures !OccursAt(s, p, i) {
      assert s[i..i + |p|][j] == s[i + j] != c;
    }
    if Contains(s, p) {
      var i := ContainsWitness(s, p);
      assert false;
    }
  }

  // ---------------------------------------------------------------- replace

  /** Python's `s.replace(p, r)`: every leftmost, non-overlapping occurrence of
      the non-empty pattern `p` is replaced by `r`. */
  function Replace(s: String, p: String, r: String): (t: String)
    requires |p| > 0
    ensures !Contains(s, p) ==> t == s
    decreases |s|
  {
    if |s| == 0 then s
    else if p <= s then r + Replace(s[|p|..], p, r)
    else [s[0]] + Replace(s[1..], p, r)
  }

  /** Replacing does not touch a first character that cannot start the pattern. */
  lemma ReplaceCons(c: char, s: String, p: String, r: String)
    requires |p| > 0 && c != p[0]
    ensures Replace([c] + s, p, r) == [c] + Replace(s, p, r)
  {
    assert ([c] + s)[1..] == s;
  }

  /** Replacing does not touch a prefix none of whose characters can start the pattern. */
  lemma {:induction false} ReplaceAppendFree(a: String, s: String, p: String, r: String)
    requires |p| > 0 && p[0] !in a
    ensures Replace(a + s, p, r) == a + Replace(s, p, r)
    decreases |a|
  {
    if |a| > 0 {
      var t := a[1..];
      assert a == [a[0]] + t;
      assert a + s == [a[0]] + (t + s);
      ReplaceCons(a[0], t + s, p, r);
      ReplaceAppendFree(t, s, p, r);
      assert [a[0]] + (t + Replace(s, p, r)) == a + Replace(s, p, r);
    } else {
      assert a + s == s;
    }
  }

  // ---------------------------------------------------------------- split / join

  /** `sep.join(parts)`. */
  function Join(parts: seq<String>, sep: String): String {
    if |parts| == 0 then []
    else if |parts| == 1 then parts[0]
    else parts[0] + sep + Join(parts[1..], sep)
  }

  lemma Join2(a: String, b: String, sep: String)
    ensures Join([a, b], sep) == a + sep + b
  {
    assert [a, b][1..] == [b];
  }

  lemma Join3(a: String, b: String, c: String, sep: String)
    ensures Join([a, b, c], sep) == a + sep + b + sep + c
  {
    assert [a, b, c][1..] == [b, c];
    Join2(b, c, sep);
    assert a + sep + (b + sep + c) == a + sep + b + sep + c;
  }

  /** How many times `c` occurs in `s`. */
  function Count(s: String, c: char): nat {
    if |s| == 0 then 0 else (if s[0] == c then 1 else 0) + Count(s[1..], c)
  }

  /** `s.split(c)` for a one-character separator: the pieces between the
      separators, one more than there are separators, none containing it, and
      joined back with the separator they give `s` again. */
  function Split(s: String, c: char): (r: seq<String>)
    ensures |r| == Count(s, c) + 1
    ensures forall i :: 0 <= i < |r| ==> c !in r[i]
    ensures Join(r, [c]) == s
    decreases |s|
  {
    if |s| == 0 then [[]]
    else
      var rest := Split(s[1..], c);
      if s[0] == c then
        assert s == [c] + s[1..];
        [[]] + rest
      else
        var head := [s[0]] + rest[0];
        var r := [head] + rest[1..];
        assert r[1..] == rest[1..];
        assert |rest| > 1 ==> Join(r, [c]) == [s[0]] + (rest[0] + [c] + Join(rest[1..], [c]));
        assert s == [s[0]] + s[1..];
        r
  }

  /** Splitting text without the separator gives the text back as the only piece. */
  lemma {:induction false} SplitNone(a: String, c: char)
    requires c !in a
    ensures Split(a, c) == [a]
    decreases |a|
  {
    if |a| > 0 {
      SplitNone(a[1..], c);
      assert [a[0]] + a[1..] == a;
    }
  }

  /** A separator after a separator-free prefix ends the first piece. */
  lemma {:induction false} SplitAfter(a: String, b: String, c: char)
    requires c !in a
    ensures Split(a + [c] + b, c) == [a] + Split(b, c)
    decreases |a|
  {
    var s := a + [c] + b;
    if |a| == 0 {
      assert s[1..] == b;
    } else {
      assert s[1..] == a[1..] + [c] + b;
      SplitAfter(a[1..], b, c);
      assert [a[0]] + a[1..] == a;
    }
  }

  /** Splitting is the inverse of joining separator-free pieces. */
  lemma {:induction false} SplitJoin(parts: seq<String>, c: char)
    requires |parts| > 0
    requires forall i :: 0 <= i < |parts| ==> c !in parts[i]
    ensures Split(Join(parts, [c]), c) == parts
    decreases |parts|
  {
    if |parts| == 1 {
      SplitNone(parts[0], c);
    } else {
      SplitJoin(parts[1..], c);
      SplitAfter(parts[0], Join(parts[1..], [c]), c);
      assert [parts[0]] + parts[1..] == parts;
    }
  }
}
