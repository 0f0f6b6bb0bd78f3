/** The pure helpers of utils.py: reading a meeting ID out of a number or a
    link (`parse_id`), chunking a list (`distribute_list`), the bold-tag
    substitution of the help texts (`pseudo_markdown`), and the case-run
    splitting at the start of `type_password`. */
module Utils {
  import opened Common
  import opened Text

  /** The concatenation of a sequence of sequences. */
  function Flatten<T>(xss: seq<seq<T>>): seq<T> {
    if |xss| == 0 then [] else Flatten(xss[..|xss| - 1]) + xss[|xss| - 1]
  }

  lemma FlattenAppend<T>(xss: seq<seq<T>>, x: seq<T>)
    ensures Flatten(xss + [x]) == Flatten(xss) + x
  {
    assert (xss + [x])[..|xss|] == xss;
  }

  // ---------------------------------------------------------------- parse_id

  /** The characters `parse_id` strips from both ends. */
  const IdTrim: set<char> := {' ', '\n'}

  /** `zoom.strip(' \n').replace(' ', '')`. */
  function Clean(s: String): String {
    Replace(Strip(s, IdTrim), " ", "")
  }

  /** The input is treated as a link when it starts with `https://` or
      mentions `zoom.us`. */
  predicate IsLink(z: String) {
    "https://" <= z || Contains(z, "zoom.us")
  }

  /** Five digits start at position `i` (where `\d{5,}` can begin a match). */
  predicate FiveDigitsAt(z: String, i: int) {
    0 <= i && i + 5 <= |z| && AllDigits(z[i..i + 5])
  }

  /** `z[i..j]` is what `re.search(r'\d{5,}', z)` matches: the leftmost place
      with five digits in a row, extended over every digit that follows. */
  predicate FirstRun(z: String, i: int, j: int) {
    && FiveDigitsAt(z, i)
    && (forall k :: 0 <= k < i ==> !FiveDigitsAt(z, k))
    && i + 5 <= j <= |z| && AllDigits(z[i..j])
    && (j == |z| || !IsDigit(z[j]))
  }

  /** The end of the run of digits starting at `i`. */
  function RunEnd(z: String, i: nat): (j: nat)
    requires i <= |z|
    ensures i <= j <= |z| && AllDigits(z[i..j])
    ensures j == |z| || !IsDigit(z[j])
    decreases |z| - i
  {
    if i < |z| && IsDigit(z[i]) then
      var j := RunEnd(z, i + 1);
      assert z[i..j] == [z[i]] + z[i + 1..j];
      j
    else i
  }

  /** No run of digits from `i` reaches past the end `RunEnd` finds. */
  lemma {:induction false} RunEndCovers(z: String, i: nat, m: nat)
    requires i <= m <= |z| && AllDigits(z[i..m])
    ensures m <= RunEnd(z, i)
    decreases m - i
  {
    if i < m {
      assert IsDigit(z[i..m][0]);
      assert z[i + 1..m] == z[i..m][1..];
      RunEndCovers(z, i + 1, m);
    }
  }

  /** The leftmost position, at or after `from`, where five digits start. */
  function FindFive(z: String, from: nat): (r: Option<nat>)
    ensures r.Some? ==> from <= r.value && FiveDigitsAt(z, r.value)
    ensures r.Some? ==> forall k :: from <= k < r.value ==> !FiveDigitsAt(z, k)
    ensures r.None? ==> forall k :: from <= k ==> !FiveDigitsAt(z, k)
    decreases |z| - from
  {
    if from + 5 > |z| then None
    else if AllDigits(z[from..from + 5]) then Some(from)
    else FindFive(z, from + 1)
  }

  /** Only one span is the match. */
  lemma FirstRunUnique(z: String, i: int, j: int, i': int, j': int)
    requires FirstRun(z, i, j) && FirstRun(z, i', j')
    ensures i == i' && j == j'
  {
    assert i < i' ==> !FiveDigitsAt(z, i);
    assert i' < i ==> !FiveDigitsAt(z, i');
    DigitsWithin(z, i, j);
    DigitsWithin(z, i', j');
  }

  lemma DigitsWithin(z: String, i: int, m: int)
    requires 0 <= i <= m <= |z| && AllDigits(z[i..m])
    ensures forall k :: i <= k < m ==> IsDigit(z[k])
  {
    forall k | i <= k < m ensures IsDigit(z[k]) {
      assert z[i..m][k - i] == z[k];
    }
  }

  /** A match never starts in the middle of a run of digits. */
  lemma FirstRunIsMaximal(z: String, i: int, j: int)
    requires FirstRun(z, i, j)
    ensures i == 0 || !IsDigit(z[i - 1])
  {
    if i > 0 && IsDigit(z[i - 1]) {
      var w, v := z[i - 1..i + 4], z[i..i + 5];
      forall k | 0 <= k < 5 ensures IsDigit(w[k]) {
        if k > 0 {
          assert w[k] == v[k - 1];
        }
      }
      assert FiveDigitsAt(z, i - 1);
      assert false;
    }
  }

  /** `parse_id` after the cleaning step, on the cleaned text `z`. */
  function ParseCleaned(z: String): (r: Result<int>)
    ensures r.Err? ==> r.error == ValueError
    ensures !IsLink(z) ==> (r.Ok? <==> ParseInt(z).Some?)
    ensures !IsLink(z) && r.Ok? ==> ParseInt(z) == Some(r.value)
    ensures IsLink(z) ==> (r.Ok? <==> exists k :: FiveDigitsAt(z, k))
    ensures IsLink(z) && r.Ok? ==> exists i, j :: FirstRun(z, i, j) && r.value == DigitsValue(z[i..j])
  {
    if IsLink(z) then
      match FindFive(z, 0)
      case None => Err(ValueError)
      case Some(i) =>
        var j := RunEnd(z, i);
        RunEndCovers(z, i, i + 5);
        assert z[i..j][..5] == z[i..i + 5];
        ParseDigits(z[i..j]);
        assert FirstRun(z, i, j);
        match ParseInt(z[i..j])
        case Some(v) => Ok(v)
        case None => Err(ValueError)
    else
      match ParseInt(z)
      case Some(v) => Ok(v)
      case None => Err(ValueError)
  }

  /** `utils.parse_id(zoom)`. The input is cleaned of surrounding spaces and
      newlines and of every inner space. A link yields the number in its first
      run of five or more digits, and raises ValueError if it has none;
      anything else must be an integer as `int()` reads it. */
  function ParseId(s: String): (r: Result<int>)
    ensures r.Err? ==> r.error == ValueError
    ensures !IsLink(Clean(s)) ==> (r.Ok? <==> ParseInt(Clean(s)).Some?)
    ensures !IsLink(Clean(s)) && r.Ok? ==> ParseInt(Clean(s)) == Some(r.value)
    ensures IsLink(Clean(s)) ==> (r.Ok? <==> exists k :: FiveDigitsAt(Clean(s), k))
    ensures IsLink(Clean(s)) && r.Ok? ==>
      exists i, j :: FirstRun(Clean(s), i, j) && r.value == DigitsValue(Clean(s)[i..j])
  {
    ParseCleaned(Clean(s))
  }

  /** `s` with every `c` removed. */
  function Without(s: String, c: char): (t: String)
    ensures c !in t
  {
    if |s| == 0 then s
    else (if s[0] == c then [] else [s[0]]) + Without(s[1..], c)
  }

  lemma {:induction false} WithoutAppend(a: String, b: String, c: char)
    ensures Without(a + b, c) == Without(a, c) + Without(b, c)
    decreases |a|
  {
    if |a| > 0 {
      assert (a + b)[1..] == a[1..] + b;
      WithoutAppend(a[1..], b, c);
    } else {
      assert a + b == b;
    }
  }

  lemma {:induction false} WithoutOnly(a: String, c: char)
    requires forall k :: 0 <= k < |a| ==> a[k] == c
    ensures Without(a, c) == []
    decreases |a|
  {
    if |a| > 0 {
      WithoutOnly(a[1..], c);
    }
  }

  /** Replacing a one-character pattern by nothing deletes that character. */
  lemma {:induction false} ReplaceDeletes(s: String, c: char)
    ensures Replace(s, [c], []) == Without(s, c)
    decreases |s|
  {
    if |s| > 0 {
      ReplaceDeletes(s[1..], c);
    }
  }

  /** Stripping characters that removal of `c` drops anyway changes nothing
      once `c` is removed. */
  lemma WithoutStripped(s: String, cs: set<char>, c: char, r: String, i: int)
    requires StrippedAt(s, cs, r, i)
    requires forall k :: 0 <= k < |s| && s[k] in cs ==> s[k] == c
    ensures Without(r, c) == Without(s, c)
  {
    var a, b := s[..i], s[i + |r|..];
    assert s == a + r + b;
    forall k | 0 <= k < |a| ensures a[k] == c {
      assert a[k] == s[k];
    }
    forall k | 0 <= k < |b| ensures b[k] == c {
      assert b[k] == s[i + |r| + k];
    }
    WithoutAppend(a + r, b, c);
    WithoutAppend(a, r, c);
    WithoutOnly(a, c);
    WithoutOnly(b, c);
  }

  /** Cleaning text made of digits and spaces just drops the spaces. */
  lemma CleanSpaced(s: String)
    requires forall k :: 0 <= k < |s| ==> s[k] == ' ' || IsDigit(s[k])
    ensures Clean(s) == Without(s, ' ')
  {
    var t := Strip(s, IdTrim);
    var i := StripSpec(s, IdTrim);
    OnlySpaceTrimmed(s);
    WithoutStripped(s, IdTrim, ' ', t, i);
    ReplaceDeletes(t, ' ');
    assert Clean(s) == Replace(t, [' '], []);
  }

  /** Of the characters `parse_id` strips, text of digits and spaces holds
      only the space. */
  lemma OnlySpaceTrimmed(s: String)
    requires forall k :: 0 <= k < |s| ==> s[k] == ' ' || IsDigit(s[k])
    ensures forall k :: 0 <= k < |s| && s[k] in IdTrim ==> s[k] == ' '
  {
    assert !IsDigit('\n');
  }

  /** A digit string is not a link. */
  lemma DigitsAreNoLink(d: String)
    requires |d| > 0 && AllDigits(d)
    ensures !IsLink(d)
  {
    DigitsExclude(d, 'z');
    NotContains(d, "zoom.us", 'z');
    assert !("https://" <= d) by { assert IsDigit(d[0]); }
  }

  /** A number typed with spaces between digit groups, as Zoom shows meeting
      IDs ("123 456 789"), is read as the digits alone. */
  lemma ParseIdSpacedDigits(s: String)
    requires forall k :: 0 <= k < |s| ==> s[k] == ' ' || IsDigit(s[k])
    requires |Without(s, ' ')| > 0
    ensures AllDigits(Without(s, ' '))
    ensures ParseId(s) == Ok(DigitsValue(Without(s, ' ')) as int)
  {
    var d := Without(s, ' ');
    CleanSpaced(s);
    AllDigitsWithout(s);
    DigitsAreNoLink(d);
    ParseDigits(d);
    assert ParseId(s) == ParseCleaned(d);
  }

  lemma {:induction false} AllDigitsWithout(s: String)
    requires forall k :: 0 <= k < |s| ==> s[k] == ' ' || IsDigit(s[k])
    ensures AllDigits(Without(s, ' '))
    decreases |s|
  {
    if |s| > 0 {
      AllDigitsWithout(s[1..]);
    }
  }

  /** In a link, the ID is the first run of five or more digits however the
      rest of the link looks, as long as no earlier text has five digits in a
      row. */
  lemma ParseIdLink(s: String, a: String, d: String, b: String)
    requires Clean(s) == a + d + b && IsLink(Clean(s))
    requires forall k :: 0 <= k < |a| ==> !IsDigit(a[k])
    requires |d| >= 5 && AllDigits(d)
    requires |b| == 0 || !IsDigit(b[0])
    ensures ParseId(s) == Ok(DigitsValue(d) as int)
  {
    var z := Clean(s);
    var i, j := |a|, |a| + |d|;
    DigitsFirstRun(a, d, b);
    var i', j' :| FirstRun(z, i', j') && ParseId(s).value == DigitsValue(z[i'..j']);
    FirstRunUnique(z, i, j, i', j');
    assert z[i..j] == d;
  }

  /** Digits after text without any digit, followed by a non-digit or the
      end, are the first run of five or more. */
  lemma DigitsFirstRun(a: String, d: String, b: String)
    requires forall k :: 0 <= k < |a| ==> !IsDigit(a[k])
    requires |d| >= 5 && AllDigits(d)
    requires |b| == 0 || !IsDigit(b[0])
    ensures FirstRun(a + d + b, |a|, |a| + |d|)
  {
    var z := a + d + b;
    var i, j := |a|, |a| + |d|;
    assert z[i..j] == d;
    assert z[i..i + 5] == d[..5];
    forall k | 0 <= k < i ensures !FiveDigitsAt(z, k) {
      assert z[k..k + 5][0] == a[k];
    }
    assert j < |z| ==> z[j] == b[0];
  }

  // ---------------------------------------------------------------- distribute_list

  /** `utils.distribute_list(xs, n)`: chunks of exactly `n` items which, put
      back together, give the list without its last `len(xs) % n` items;
      `n` of zero or less gives no chunks at all. */
  method DistributeList<T>(xs: seq<T>, n: int) returns (resp: seq<seq<T>>)
    ensures n <= 0 ==> resp == []
    ensures n > 0 ==> |resp| == |xs| / n
    ensures forall c :: 0 <= c < |resp| ==> |resp[c]| == n
    ensures n > 0 ==> Flatten(resp) == xs[..n * (|xs| / n)]
  {
    resp := [];
    var acum: seq<T> := [];
    var k := 0;
    ghost var taken := 0;
    for i := 0 to |xs|
      invariant k == |acum| && taken + k == i
      invariant n <= 0 ==> resp == [] && taken == 0
      invariant n > 0 ==> k < n
      invariant forall c :: 0 <= c < |resp| ==> |resp[c]| == n
      invariant Flatten(resp) == xs[..taken] && acum == xs[taken..i]
    {
      k := k + 1;
      acum := acum + [xs[i]];
      if k == n {
        FlattenAppend(resp, acum);
        assert xs[..taken] + xs[taken..i + 1] == xs[..i + 1];
        resp := resp + [acum];
        taken := i + 1;
        acum := [];
        k := 0;
      }
    }
    if n > 0 {
      FlattenUniform(resp, n);
      DivUnique(|xs|, n, |resp|, k);
    }
  }

  /** What the chunks hold: chunk `c` is items `c*n` up to `c*n + n` of the
      list, for any result meeting the contract of `DistributeList`. */
  lemma DistributedChunks<T>(xs: seq<T>, n: int, resp: seq<seq<T>>)
    requires n > 0
    requires forall c :: 0 <= c < |resp| ==> |resp[c]| == n
    requires Flatten(resp) == xs[..n * (|xs| / n)]
    ensures forall c :: 0 <= c < |resp| ==> c * n + n <= |xs| && resp[c] == xs[c * n..c * n + n]
  {
    FlattenUniform(resp, n);
    var m := n * (|xs| / n);
    WholeChunks(|xs|, n);
    forall c | 0 <= c < |resp| ensures c * n + n <= |xs| && resp[c] == xs[c * n..c * n + n] {
      SliceOfPrefix(xs, m, resp[c], c * n, c * n + n);
    }
  }

  lemma WholeChunks(len: nat, n: int)
    requires n > 0
    ensures 0 <= n * (len / n) <= len
  {
  }

  lemma SliceOfPrefix<T>(xs: seq<T>, m: int, x: seq<T>, a: int, b: int)
    requires 0 <= a <= b <= m <= |xs|
    requires x == xs[..m][a..b]
    ensures x == xs[a..b]
  {
  }

  /** Pieces of one length `n` lie end to end in their concatenation. */
  lemma {:induction false} FlattenUniform<T>(xss: seq<seq<T>>, n: nat)
    requires forall c :: 0 <= c < |xss| ==> |xss[c]| == n
    ensures |Flatten(xss)| == |xss| * n
    ensures forall c :: 0 <= c < |xss| ==> c * n + n <= |xss| * n
    ensures forall c :: 0 <= c < |xss| ==> xss[c] == Flatten(xss)[c * n..c * n + n]
  {
    if |xss| > 0 {
      var init := xss[..|xss| - 1];
      FlattenUniform(init, n);
      var m := |init|;
      var f := Flatten(init);
      assert Flatten(xss) == f + xss[m];
      ChunkBound(m, m + 1, n);
      forall c | 0 <= c < |xss| ensures c * n + n <= |xss| * n && xss[c] == Flatten(xss)[c * n..c * n + n] {
        ChunkBound(c, |xss|, n);
        if c < m {
          ChunkBound(c, m, n);
          ChunkInPrefix(f, xss[m], init[c], c * n, n);
        } else {
          assert (f + xss[m])[|f|..|f| + n] == xss[m];
        }
      }
    }
  }

  lemma ChunkInPrefix<T>(f: seq<T>, g: seq<T>, x: seq<T>, a: int, n: nat)
    requires 0 <= a && a + n <= |f| && x == f[a..a + n]
    ensures x == (f + g)[a..a + n]
  {
  }

  /** Chunk `c` of `m` chunks of `n` ends within them; the last one ends at their end. */
  lemma ChunkBound(c: int, m: int, n: nat)
    requires 0 <= c < m
    ensures c * n + n <= m * n
    ensures c == m - 1 ==> c * n + n == m * n
  {
    assert c * n + n == (c + 1) * n;
    MulMonotone(n, c + 1, m);
  }

  lemma MulMonotone(n: int, a: int, b: int)
    requires n >= 0 && a <= b
    ensures n * a <= n * b
  {
  }

  lemma DivUnique(a: int, n: int, q: int, r: int)
    requires n > 0 && 0 <= r < n && a == n * q + r
    ensures a / n == q
  {
    var q', r' := a / n, a % n;
    assert a == n * q' + r';
    if q' > q {
      MulMonotone(n, q + 1, q');
      assert false;
    } else if q' < q {
      MulMonotone(n, q' + 1, q);
      assert false;
    }
  }

  // ---------------------------------------------------------------- pseudo_markdown

  /** The terminal escape that turns bold on, and the one that resets it. */
  const BoldOn: String := "\U{001B}[1m"
  const BoldOff: String := "\U{001B}[0m"

  /** `utils.pseudo_markdown(text)`: every `<b>` replaced, then every `</b>`. */
  function PseudoMarkdown(text: String): (r: String)
    ensures !Contains(text, "<b>") && !Contains(text, "</b>") ==> r == text
  {
    Replace(Replace(text, "<b>", BoldOn), "</b>", BoldOff)
  }

  /** The substitution in one left-to-right pass: each tag at the reading
      position becomes its escape, any other character stays. */
  function MarkdownPass(s: String): String
    decreases |s|
  {
    if |s| == 0 then s
    else if "<b>" <= s then BoldOn + MarkdownPass(s[3..])
    else if "</b>" <= s then BoldOff + MarkdownPass(s[4..])
    else [s[0]] + MarkdownPass(s[1..])
  }

  /** Replacing `p` neither creates nor destroys a prefix `w` that overlaps no
      occurrence of `p` and does not begin like the replacement. */
  lemma {:induction false} ReplaceKeepsPrefix(s: String, w: String, p: String, r: String)
    requires |p| > 0 && |r| > 0 && |w| > 0
    requires r[0] !in w
    requires forall k :: 1 <= k < |w| ==> w[k] != p[0]
    requires !(p <= w) && !(w <= p)
    ensures w <= Replace(s, p, r) <==> w <= s
    decreases |w|
  {
    if p <= s {
      assert Replace(s, p, r)[0] == r[0] != w[0];
    } else if |s| > 0 {
      var t := Replace(s[1..], p, r);
      assert Replace(s, p, r) == [s[0]] + t;
      if |w| > 1 {
        assert w[1] != p[0];
        ReplaceKeepsPrefix(s[1..], w[1..], p, r);
        assert w <= [s[0]] + t <==> w[0] == s[0] && w[1..] <= t;
        assert w <= s <==> w[0] == s[0] && w[1..] <= s[1..];
      }
    }
  }

  /** An opening tag at the front becomes the bold escape. */
  lemma MarkdownAtOpen(s: String)
    requires "<b>" <= s
    ensures PseudoMarkdown(s) == BoldOn + PseudoMarkdown(s[3..])
  {
    var t := Replace(s[3..], "<b>", BoldOn);
    assert Replace(s, "<b>", BoldOn) == BoldOn + t;
    assert '<' !in BoldOn;
    ReplaceAppendFree(BoldOn, t, "</b>", BoldOff);
  }

  /** A closing tag at the front survives the first replacement and becomes
      the reset escape in the second. */
  lemma MarkdownAtClose(s: String)
    requires "</b>" <= s
    ensures PseudoMarkdown(s) == BoldOff + PseudoMarkdown(s[4..])
  {
    var rest := s[4..];
    var t := Replace(rest, "<b>", BoldOn);
    assert s == "<" + ("/b>" + rest);
    assert !("<b>" <= s) by { assert s[1] == '/'; }
    assert Replace(s, "<b>", BoldOn) == "<" + Replace("/b>" + rest, "<b>", BoldOn) by {
      assert s[1..] == "/b>" + rest;
    }
    assert '<' !in "/b>";
    ReplaceAppendFree("/b>", rest, "<b>", BoldOn);
    var r1 := "</b>" + t;
    assert Replace(s, "<b>", BoldOn) == r1;
    assert "</b>" <= r1 && r1[4..] == t;
  }

  /** Any other character at the front is kept by both replacements. */
  lemma MarkdownAtOther(s: String)
    requires |s| > 0 && !("<b>" <= s) && !("</b>" <= s)
    ensures PseudoMarkdown(s) == [s[0]] + PseudoMarkdown(s[1..])
  {
    var t := Replace(s[1..], "<b>", BoldOn);
    var r1 := [s[0]] + t;
    assert Replace(s, "<b>", BoldOn) == r1;
    assert "</b>"[1] != "<b>"[1];
    ReplaceKeepsPrefix(s, "</b>", "<b>", BoldOn);
    assert !("</b>" <= r1);
    assert r1[1..] == t;
  }

  /** Chaining the two replacements is the single pass: the first never
      touches a `</b>`, and the escape it inserts holds no `<` for the second
      to match. */
  lemma {:induction false} PseudoMarkdownIsOnePass(s: String)
    ensures PseudoMarkdown(s) == MarkdownPass(s)
    decreases |s|
  {
    if |s| == 0 {
    } else if "<b>" <= s {
      MarkdownAtOpen(s);
      PseudoMarkdownIsOnePass(s[3..]);
    } else if "</b>" <= s {
      MarkdownAtClose(s);
      PseudoMarkdownIsOnePass(s[4..]);
    } else {
      MarkdownAtOther(s);
      PseudoMarkdownIsOnePass(s[1..]);
    }
  }

  /** Text with no `<` is shown as it is written. */
  lemma PlainTextUnchanged(s: String)
    requires '<' !in s
    ensures PseudoMarkdown(s) == s
  {
    NotContains(s, "<b>", '<');
    NotContains(s, "</b>", '<');
  }

  // ---------------------------------------------------------------- type_password

  /** Every cased letter of `part` is upper case when `caps`, lower case otherwise. */
  predicate OneCase(part: String, caps: bool) {
    forall k :: 0 <= k < |part| ==> if caps then !IsLower(part[k]) else !IsUpper(part[k])
  }

  /** Pieces that are non-empty and of one case each, the case of each being
      that of its first character, consecutive pieces alternating, and every
      piece after the first starting with a letter (the one whose case
      changed). */
  predicate RunsShape(runs: seq<String>) {
    && (forall j :: 0 <= j < |runs| ==> |runs[j]| > 0 && OneCase(runs[j], IsUpper(runs[j][0])))
    && (forall j :: 0 < j < |runs| ==> IsUpper(runs[j][0]) || IsLower(runs[j][0]))
    && (forall j :: 0 < j < |runs| ==> IsUpper(runs[j][0]) != IsUpper(runs[j - 1][0]))
  }

  /** `runs` cut `password` into case runs. */
  predicate CaseRuns(password: String, runs: seq<String>) {
    |runs| > 0 && Flatten(runs) == password && RunsShape(runs)
  }

  /** Growing the last piece without changing its first character or
      breaking its case keeps the shape. */
  lemma ShapeGrowLast(runs: seq<String>, last: String)
    requires |runs| > 0 && RunsShape(runs)
    requires |last| > 0 && last[0] == runs[|runs| - 1][0] && OneCase(last, IsUpper(last[0]))
    ensures RunsShape(runs[..|runs| - 1] + [last])
  {
    var runs' := runs[..|runs| - 1] + [last];
    forall j | 0 <= j < |runs'| ensures runs'[j][0] == runs[j][0] {
    }
    forall j | 0 <= j < |runs'| - 1 ensures runs'[j] == runs[j] {
    }
  }

  /** A single character is of its own case. */
  lemma OneCaseSingle(c: char)
    ensures OneCase([c], IsUpper(c))
  {
    var single: String := [c];
    forall k | 0 <= k < |single| ensures if IsUpper(c) then !IsLower(single[k]) else !IsUpper(single[k]) {
      assert single[k] == c;
    }
  }

  /** A new piece of the other case, starting with a letter, keeps the shape. */
  lemma ShapeAppend(runs: seq<String>, x: String)
    requires |runs| > 0 && RunsShape(runs)
    requires |x| > 0 && OneCase(x, IsUpper(x[0])) && (IsUpper(x[0]) || IsLower(x[0]))
    requires IsUpper(x[0]) != IsUpper(runs[|runs| - 1][0])
    ensures RunsShape(runs + [x])
  {
    var runs' := runs + [x];
    forall j | 0 <= j < |runs| ensures runs'[j] == runs[j] {
    }
    assert runs'[|runs|] == x;
  }

  /** The loop at the start of `type_password`: the password cut where the
      case of a letter differs from the case being typed, digits and symbols
      staying with the run they follow. An empty password raises IndexError
      (`password[0]`). */
  method SplitCaseRuns(password: String) returns (r: Result<seq<String>>)
    ensures |password| == 0 <==> r.Err?
    ensures r.Err? ==> r.error == IndexError
    ensures r.Ok? ==> CaseRuns(password, r.value)
  {
    if |password| == 0 {
      return Err(IndexError);
    }
    var parts: seq<String> := [];
    var acum: String := [];
    var caps := IsUpper(password[0]);
    for i := 0 to |password|
      invariant i == 0 ==> parts == [] && acum == [] && caps == IsUpper(password[0])
      invariant i > 0 ==> |acum| > 0 && caps == IsUpper(acum[0]) && CaseRuns(password[..i], parts + [acum])
    {
      var c := password[i];
      if (IsUpper(c) && !caps) || (IsLower(c) && caps) {
        assert i > 0;
        var runs := parts + [acum];
        assert runs[|parts|] == acum;
        RunsSwitch(password, i, runs, caps);
        caps := !caps;
        parts := runs;
        acum := [c];
        assert parts + [acum] == runs + [[c]];
      } else {
        if i == 0 {
          RunsStart(password);
          assert acum + [c] == [c];
          assert parts + [[c]] == [[c]];
        } else {
          RunsExtend(password, i, parts, acum, caps);
          assert (acum + [c])[0] == acum[0];
        }
        acum := acum + [c];
      }
    }
    assert password[..|password|] == password;
    return Ok(parts + [acum]);
  }

  /** The first character opens the first run. */
  lemma RunsStart(password: String)
    requires |password| > 0
    ensures CaseRuns(password[..1], [[password[0]]])
  {
    var c := password[0];
    var none: seq<String> := [];
    assert none + [[c]] == [[c]];
    FlattenAppend(none, [c]);
    assert password[..1] == [c];
  }

  /** A character that keeps the case being typed joins the current run. */
  lemma RunsExtend(password: String, i: nat, parts: seq<String>, acum: String, caps: bool)
    requires 0 < i < |password| && |acum| > 0 && caps == IsUpper(acum[0])
    requires CaseRuns(password[..i], parts + [acum])
    requires !((IsUpper(password[i]) && !caps) || (IsLower(password[i]) && caps))
    ensures CaseRuns(password[..i + 1], parts + [acum + [password[i]]])
  {
    var c := password[i];
    var runs := parts + [acum];
    var last := acum + [c];
    FlattenAppend(parts, acum);
    FlattenAppend(parts, last);
    assert password[..i + 1] == password[..i] + [c];
    assert runs[|runs| - 1] == acum && runs[..|runs| - 1] == parts;
    assert OneCase(acum, caps);
    OneCaseAppend(acum, c, caps);
    ShapeGrowLast(runs, last);
  }

  lemma OneCaseAppend(part: String, c: char, caps: bool)
    requires OneCase(part, caps) && (if caps then !IsLower(c) else !IsUpper(c))
    ensures OneCase(part + [c], caps)
  {
    var last := part + [c];
    forall k | 0 <= k < |last| ensures if caps then !IsLower(last[k]) else !IsUpper(last[k]) {
      if k < |part| {
        assert last[k] == part[k];
      }
    }
  }

  /** A letter of the other case closes the current run and opens the next
      one, whose case is the opposite. */
  lemma RunsSwitch(password: String, i: nat, runs: seq<String>, caps: bool)
    requires 0 < i < |password| && |runs| > 0 && |runs[|runs| - 1]| > 0 && caps == IsUpper(runs[|runs| - 1][0])
    requires CaseRuns(password[..i], runs)
    requires (IsUpper(password[i]) && !caps) || (IsLower(password[i]) && caps)
    ensures CaseRuns(password[..i + 1], runs + [[password[i]]])
  {
    var c := password[i];
    FlattenAppend(runs, [c]);
    assert password[..i + 1] == password[..i] + [c];
    OneCaseSingle(c);
    ShapeAppend(runs, [c]);
  }

  /** Digits after capitals are typed in the capitals' run: "AB1c" is cut
      into "AB1" and "c". */
  lemma DigitStaysInRun()
    ensures CaseRuns("AB1c", ["AB1", "c"])
  {
    FlattenAppend([], "AB1");
    FlattenAppend(["AB1"], "c");
    assert [] + ["AB1"] == ["AB1"];
    assert ["AB1"] + ["c"] == ["AB1", "c"];
  }

  lemma {:induction false} FlattenCons<T>(x: seq<T>, xss: seq<seq<T>>)
    ensures Flatten([x] + xss) == x + Flatten(xss)
    decreases |xss|
  {
    if |xss| == 0 {
      assert [x] + xss == [] + [x];
      FlattenAppend([], x);
    } else {
      var init, last := xss[..|xss| - 1], xss[|xss| - 1];
      assert [x] + xss == ([x] + init) + [last];
      assert xss == init + [last];
      FlattenAppend([x] + init, last);
      FlattenCons(x, init);
      FlattenAppend(init, last);
    }
  }

  /** The first run is where the password starts; the second, if any, starts
      right after it with a letter of the other case. */
  lemma RunsFirst(password: String, runs: seq<String>)
    requires CaseRuns(password, runs)
    ensures password == runs[0] + Flatten(runs[1..])
    ensures |runs| == 1 ==> password == runs[0]
    ensures |runs| > 1 ==> |runs[0]| < |password| && password[|runs[0]|] == runs[1][0]
  {
    assert runs == [runs[0]] + runs[1..];
    FlattenCons(runs[0], runs[1..]);
    if |runs| > 1 {
      assert runs[1..] == [runs[1]] + runs[2..];
      FlattenCons(runs[1], runs[2..]);
    } else {
      assert runs[1..] == [];
    }
  }

  lemma ShapeTail(runs: seq<String>)
    requires |runs| > 1 && RunsShape(runs)
    ensures RunsShape(runs[1..])
  {
    var t := runs[1..];
    forall j | 0 <= j < |t| ensures t[j] == runs[j + 1] {
    }
  }

  /** The first run is a prefix of the password; when another run follows,
      the character after it is a letter of the other case. */
  lemma RunBoundary(password: String, runs: seq<String>)
    requires CaseRuns(password, runs)
    ensures |runs[0]| <= |password| && password[..|runs[0]|] == runs[0]
    ensures |runs| == 1 ==> |runs[0]| == |password|
    ensures |runs| > 1 ==> var e := |runs[0]|;
      && e < |password|
      && (IsUpper(password[e]) || IsLower(password[e]))
      && IsUpper(password[e]) != IsUpper(password[0])
  {
    RunsFirst(password, runs);
  }

  /** No prefix of one case is longer than the first run. */
  lemma NoLongerRun(password: String, runs: seq<String>, n: nat)
    requires CaseRuns(password, runs)
    requires 0 < n <= |password| && OneCase(password[..n], IsUpper(password[0]))
    ensures n <= |runs[0]|
  {
    RunBoundary(password, runs);
    forall k | 0 <= k < n ensures password[..n][k] == password[k] {
    }
  }

  /** The case runs of a password are unique: the shape alone fixes where
      every piece begins and ends, so `SplitCaseRuns` computes the one
      decomposition there is. */
  lemma {:induction false} CaseRunsUnique(password: String, r1: seq<String>, r2: seq<String>)
    requires CaseRuns(password, r1) && CaseRuns(password, r2)
    ensures r1 == r2
    decreases |r1|
  {
    RunBoundary(password, r1);
    RunBoundary(password, r2);
    var a, b := r1[0], r2[0];
    assert a[0] == password[0] && b[0] == password[0];
    NoLongerRun(password, r1, |b|);
    NoLongerRun(password, r2, |a|);
    assert a == b;
    if |r1| > 1 {
      RunsFirst(password, r1);
      RunsFirst(password, r2);
      var rest := password[|a|..];
      assert Flatten(r1[1..]) == rest && Flatten(r2[1..]) == rest;
      ShapeTail(r1);
      ShapeTail(r2);
      CaseRunsUnique(rest, r1[1..], r2[1..]);
      assert r1 == [a] + r1[1..] && r2 == [b] + r2[1..];
    }
  }

  // ---------------------------------------------------------------- type_password, typing

  /** `c.lower()` on an ASCII character. */
  function LowerChar(c: char): (d: char)
    ensures IsUpper(c) ==> IsLower(d) && d as int == c as int + 32
    ensures !IsUpper(c) ==> d == c
  {
    if IsUpper(c) then (c as int + 32) as char else c
  }

  /** What a letter key gives with shift held: its capital. Other keys are
      left as they are here; what shift does to them depends on the
      keyboard layout. */
  function Shifted(shift: bool, c: char): char {
    if shift && IsLower(c) then (c as int - 32) as char else c
  }

  /** One `typewrite` call: the keys of `part.lower()`, shift held or not. */
  datatype Stroke = Stroke(shift: bool, keys: String)

  /** The typing loop: each piece is typed in lower case, with shift held
      exactly when its first character is a capital. */
  function TypingPlan(parts: seq<String>): (plan: seq<Stroke>)
    requires forall j :: 0 <= j < |parts| ==> |parts[j]| > 0
    ensures |plan| == |parts|
    ensures forall j :: 0 <= j < |parts| ==> plan[j].shift == IsUpper(parts[j][0]) && |plan[j].keys| == |parts[j]|
    ensures forall j, k :: 0 <= j < |parts| && 0 <= k < |parts[j]| ==> plan[j].keys[k] == LowerChar(parts[j][k])
  {
    seq(|parts|, j requires 0 <= j < |parts| =>
      Stroke(IsUpper(parts[j][0]), seq(|parts[j]|, k requires 0 <= k < |parts[j]| => LowerChar(parts[j][k]))))
  }

  /** Typing the case runs of a password gives back every one of its
      letters: a run typed with shift holds no lower-case letter and a run
      typed without it holds no capital. Shift is pressed and released
      alternately from one run to the next, and any other character is sent
      as itself. */
  lemma TypingReproducesLetters(password: String, runs: seq<String>)
    requires CaseRuns(password, runs)
    ensures var plan := TypingPlan(runs);
      && (forall j, k :: 0 <= j < |runs| && 0 <= k < |runs[j]| && (IsUpper(runs[j][k]) || IsLower(runs[j][k]))
            ==> Shifted(plan[j].shift, plan[j].keys[k]) == runs[j][k])
      && (forall j, k :: 0 <= j < |runs| && 0 <= k < |runs[j]| && !IsUpper(runs[j][k]) && !IsLower(runs[j][k])
            ==> plan[j].keys[k] == runs[j][k])
      && (forall j :: 0 < j < |runs| ==> plan[j].shift != plan[j - 1].shift)
  {
    var plan := TypingPlan(runs);
    forall j, k | 0 <= j < |runs| && 0 <= k < |runs[j]| && (IsUpper(runs[j][k]) || IsLower(runs[j][k]))
      ensures Shifted(plan[j].shift, plan[j].keys[k]) == runs[j][k]
    {
      assert OneCase(runs[j], IsUpper(runs[j][0]));
    }
  }
}
