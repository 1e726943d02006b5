/** The comment-tolerant JSON reader's stripper (`strip_comment_line_with_symbol`, `strip_comments`):
    line comments start with a symbol such as `#` or `//` and are cut off unless the symbol stands inside a
    quoted string, judged by counting double quotes with a regular expression. */
module Comments {
  import opened Outcomes
  import opened Text

  // ---------------------------------------------------------------------------------------------
  // The quote counter: the non-overlapping matches of `(?:^|[^"\\]|(?:\\\\|\\")+)(")`, left to right.
  // ---------------------------------------------------------------------------------------------

  /** Index just after the longest run of two-character pairs `\\` or `\"` that starts at `q`. */
  function PairsEnd(s: string, q: nat): (e: nat)
    requires q <= |s|
    ensures q <= e <= |s| && (e - q) % 2 == 0
    decreases |s| - q
  {
    if q + 1 < |s| && s[q] == '\\' && (s[q + 1] == '\\' || s[q + 1] == '"') then PairsEnd(s, q + 2) else q
  }

  /** Where a match of the quote pattern attempted at `p` ends, if the attempt succeeds. The three
      alternatives are tried in order: the start of the string, one character that is neither a quote nor a
      backslash, a maximal run of escape pairs; each must be followed by the counted quote. A shorter run of
      pairs never helps, since every pair starts with a backslash and not a quote. */
  function MatchEnd(s: string, p: nat): (r: Option<nat>)
    requires p < |s|
    ensures r.Some? ==> p < r.value <= |s| && s[r.value - 1] == '"'
  {
    if p == 0 && s[0] == '"' then Some(1)
    else if s[p] != '"' && s[p] != '\\' then
      if p + 1 < |s| && s[p + 1] == '"' then Some(p + 2) else None
    else if s[p] == '\\' then
      var e := PairsEnd(s, p);
      if e > p && e < |s| && s[e] == '"' then Some(e + 1) else None
    else None
  }

  /** Number of matches found by scanning from `p`: after a match the scan resumes at its end, after a failed
      attempt at the next character. */
  function CountFrom(s: string, p: nat): nat
    requires p <= |s|
    decreases |s| - p
  {
    if p == |s| then 0
    else match MatchEnd(s, p)
      case None => CountFrom(s, p + 1)
      case Some(e) => 1 + CountFrom(s, e)
  }

  /** `len(re.findall(r'(?:^|[^"\\]|(?:\\\\|\\")+)(")', part))`. */
  function QuoteCount(part: string): nat {
    CountFrom(part, 0)
  }

  lemma {:induction false} CountFromBound(s: string, p: nat)
    requires p <= |s|
    ensures CountFrom(s, p) <= CountChar(s[p..], '"')
    decreases |s| - p
  {
    if p < |s| {
      match MatchEnd(s, p)
      case None =>
        CountFromBound(s, p + 1);
        assert s[p..] == [s[p]] + s[p + 1..];
        CountCharAppend([s[p]], s[p + 1..], '"');
      case Some(e) =>
        CountFromBound(s, e);
        assert s[p..] == s[p..e - 1] + [s[e - 1]] + s[e..];
        CountCharAppend(s[p..e - 1], [s[e - 1]], '"');
        CountCharAppend(s[p..e - 1] + [s[e - 1]], s[e..], '"');
    }
  }

  /** Every counted match consumes a quote of its own: the count never exceeds the number of quotes. */
  lemma QuoteCountBound(part: string)
    ensures QuoteCount(part) <= CountChar(part, '"')
  {
    CountFromBound(part, 0);
    assert QuoteCount(part) == CountFrom(part, 0);
    assert part[0..] == part;
  }

  /** A string without backslashes in which no two quotes are adjacent. */
  predicate Plain(s: string) {
    && (forall i :: 0 <= i < |s| ==> s[i] != '\\')
    && (forall i :: 0 <= i < |s| - 1 ==> !(s[i] == '"' && s[i + 1] == '"'))
  }

  lemma {:induction false} PlainCountFrom(s: string, p: nat)
    requires Plain(s) && p <= |s|
    requires p == 0 || p == |s| || s[p] != '"'
    ensures CountFrom(s, p) == CountChar(s[p..], '"')
    decreases |s| - p
  {
    if p < |s| {
      assert s[p..] == [s[p]] + s[p + 1..];
      CountCharAppend([s[p]], s[p + 1..], '"');
      if p == 0 && s[0] == '"' {
        PlainCountFrom(s, 1);
      } else if p + 1 < |s| && s[p + 1] == '"' {
        assert s[p] != '"';
        assert s[p + 1..] == [s[p + 1]] + s[p + 2..];
        CountCharAppend([s[p + 1]], s[p + 2..], '"');
        PlainCountFrom(s, p + 2);
      } else {
        PlainCountFrom(s, p + 1);
      }
    }
  }

  /** Reference reading of the counter: on text without backslashes and without two adjacent quotes, it counts
      exactly the double quotes. */
  lemma PlainQuoteCount(s: string)
    requires Plain(s)
    ensures QuoteCount(s) == CountChar(s, '"')
  {
    PlainCountFrom(s, 0);
    assert s[0..] == s;
  }

  /** An escaped quote is not counted; of two adjacent quotes only the first is; a quote after an escaped
      backslash is. */
  lemma QuoteCountExamples()
    ensures QuoteCount("a\\\"b") == 0
    ensures QuoteCount("\"\"") == 1
    ensures QuoteCount("\\\\\"") == 1
    ensures QuoteCount("\"a\"") == 2
  {
    assert PairsEnd("a\\\"b", 1) == 3;
    assert MatchEnd("a\\\"b", 1) == None;
    assert CountFrom("a\\\"b", 1) == 0;
    assert PairsEnd("\\\\\"", 0) == 2;
    assert MatchEnd("\\\\\"", 0) == Some(3);
  }

  // ---------------------------------------------------------------------------------------------
  // Cutting one line at a comment symbol.
  // ---------------------------------------------------------------------------------------------

  /** The quotes counted in the first `n` parts. */
  function Total(parts: seq<string>, n: nat): nat
    requires n <= |parts|
  {
    if n == 0 then 0 else Total(parts, n - 1) + QuoteCount(parts[n - 1])
  }

  /** The running quote total after part `m` is odd: the symbol after part `m` stands inside a string. */
  predicate OddAt(parts: seq<string>, m: nat) {
    m < |parts| && Total(parts, m + 1) % 2 == 1
  }

  /** The first index `c >= n` whose running quote total `Total(parts, c + 1)` is even. */
  function CutFrom(parts: seq<string>, n: nat): (r: Option<nat>)
    requires n <= |parts|
    decreases |parts| - n
    ensures r.Some? ==> n <= r.value < |parts| && Total(parts, r.value + 1) % 2 == 0
    ensures r.Some? ==> forall m :: n <= m < r.value ==> OddAt(parts, m)
    ensures r.None? <==> forall m :: n <= m < |parts| ==> OddAt(parts, m)
  {
    if n == |parts| then None
    else if !OddAt(parts, n) then Some(n)
    else CutFrom(parts, n + 1)
  }

  /** The cut is at `c` when every earlier running total is odd and the one at `c` is even. */
  lemma {:induction false} CutFromIs(parts: seq<string>, n: nat, c: nat)
    requires n <= c < |parts| && !OddAt(parts, c)
    requires forall m :: n <= m < c ==> OddAt(parts, m)
    ensures CutFrom(parts, n) == Some(c)
    decreases c - n
  {
    if n < c {
      assert OddAt(parts, n);
      CutFromIs(parts, n + 1, c);
    }
  }

  /** The line cut at the first occurrence of `sym` before which an even number of quotes was counted,
      with trailing whitespace removed; without such an occurrence, the whole line right-stripped. */
  function StripLine(line: string, sym: string): string
    requires |sym| > 0
  {
    var parts := Split(line, sym);
    match CutFrom(parts, 0)
    case Some(nr) => RStrip(Join(parts[..nr + 1], sym))
    case None => RStrip(line)
  }

  /** `strip_comment_line_with_symbol(line, start=sym)`: the loop over the parts with a running total. */
  method StripCommentLine(line: string, sym: string) returns (r: string)
    requires |sym| > 0
    ensures r == StripLine(line, sym)
  {
    var parts := Split(line, sym);
    var counts := seq(|parts|, i requires 0 <= i < |parts| => QuoteCount(parts[i]));
    var total := 0;
    var nr := 0;
    while nr < |counts|
      invariant 0 <= nr <= |parts|
      invariant total == Total(parts, nr)
      invariant forall m :: 0 <= m < nr ==> OddAt(parts, m)
    {
      total := total + counts[nr];
      if total % 2 == 0 {
        CutFromIs(parts, 0, nr);
        return RStrip(Join(parts[..nr + 1], sym));
      }
      nr := nr + 1;
    }
    return RStrip(line);
  }

  lemma PrefixTrans(a: string, b: string, c: string)
    requires IsPrefix(a, b) && IsPrefix(b, c)
    ensures IsPrefix(a, c)
  {
    assert c[..|b|][..|a|] == c[..|a|];
  }

  /** The result is always a prefix of the line without trailing whitespace. */
  lemma StripLinePrefix(line: string, sym: string)
    requires |sym| > 0
    ensures IsPrefix(StripLine(line, sym), line)
    ensures StripLine(line, sym) == RStrip(StripLine(line, sym))
  {
    var parts := Split(line, sym);
    JoinSplit(line, sym);
    var r := StripLine(line, sym);
    match CutFrom(parts, 0)
    case Some(nr) =>
      JoinPrefix(parts, sym, nr + 1);
      PrefixTrans(r, Join(parts[..nr + 1], sym), line);
    case None =>
  }

  /** A line that does not contain the symbol only loses its trailing whitespace. */
  lemma StripLineWithoutSymbol(line: string, sym: string)
    requires |sym| > 0 && !Contains(line, sym)
    ensures StripLine(line, sym) == RStrip(line)
  {
    SplitWithout(line, sym);
    assert [line][..1] == [line];
  }

  /** With an even number of quotes before the first symbol, the line is cut at that symbol. */
  lemma StripLineEvenHead(line: string, sym: string)
    requires |sym| > 0 && QuoteCount(Split(line, sym)[0]) % 2 == 0
    ensures StripLine(line, sym) == RStrip(Split(line, sym)[0])
  {
    var parts := Split(line, sym);
    assert Total(parts, 1) == QuoteCount(parts[0]);
    assert parts[..1] == [parts[0]];
  }

  lemma RStripKeeps(a: string, b: string)
    requires a != [] && !IsSpace(a[|a| - 1])
    ensures IsPrefix(a, RStrip(a + b))
  {
    var r := RStrip(a + b);
    assert (a + b)[|a| - 1] == a[|a| - 1];
    assert |r| >= |a|;
    assert r[..|a|] == (a + b)[..|a|];
  }

  /** `StripLine` in terms of the first `k` parts, where `k` is one past the cut or all the parts. */
  lemma StripLineUpTo(line: string, sym: string) returns (k: nat)
    requires |sym| > 0
    ensures 1 <= k <= |Split(line, sym)|
    ensures CutFrom(Split(line, sym), 0).Some? ==> k == CutFrom(Split(line, sym), 0).value + 1
    ensures CutFrom(Split(line, sym), 0).None? ==> k == |Split(line, sym)|
    ensures StripLine(line, sym) == RStrip(Join(Split(line, sym)[..k], sym))
  {
    var parts := Split(line, sym);
    match CutFrom(parts, 0)
    case Some(nr) => k := nr + 1;
    case None =>
      k := |parts|;
      JoinSplit(line, sym);
      assert parts[..k] == parts;
  }

  /** With an odd number of quotes before the first symbol (the symbol opens inside a string), that symbol
      is kept: the result starts with the text before it followed by the symbol itself. */
  lemma StripLineOddHead(line: string, sym: string)
    requires |sym| > 0 && !IsSpace(sym[|sym| - 1]) && Contains(line, sym)
    requires QuoteCount(Split(line, sym)[0]) % 2 == 1
    ensures IsPrefix(Split(line, sym)[0] + sym, StripLine(line, sym))
  {
    var parts := Split(line, sym);
    var j :| 0 <= j <= |line| && OccursAt(line, sym, j);
    SplitFromFound(line, sym, 0, 0, j);
    assert Total(parts, 1) == QuoteCount(parts[0]);
    assert OddAt(parts, 0);
    var k := StripLineUpTo(line, sym);
    JoinHead(parts, k, sym);
    RStripKeeps(parts[0] + sym, Join(parts[1..k], sym));
  }

  lemma JoinHead(parts: seq<string>, k: nat, sep: string)
    requires 2 <= k <= |parts|
    ensures Join(parts[..k], sep) == parts[0] + sep + Join(parts[1..k], sep)
  {
    assert parts[..k] == [parts[0]] + parts[1..k];
    JoinCons(parts[0], parts[1..k], sep);
  }

  /** An occurrence of the separator at or after the scan position yields at least two pieces. */
  lemma {:induction false} SplitFromFound(s: string, sep: string, start: nat, i: nat, j: nat)
    requires |sep| > 0 && start <= i <= j && i <= |s| && OccursAt(s, sep, j)
    ensures |SplitFrom(s, sep, start, i)| >= 2
    decreases j - i
  {
    if s[i..i + |sep|] != sep {
      SplitFromFound(s, sep, start, i + 1, j);
    }
  }

  lemma ExampleSplit()
    ensures Split("\"u\": \"a#b\" # c", "#") == ["\"u\": \"a", "b\" ", " c"]
  {
    var parts := ["\"u\": \"a", "b\" ", " c"];
    assert Join(parts, "#") == "\"u\": \"a#b\" # c" by {
      assert parts[1..][1..] == [" c"];
    }
    assert forall x :: x in parts ==> '#' !in x;
    SplitJoin(parts, '#');
  }

  lemma ExampleCounts()
    ensures QuoteCount("\"u\": \"a") == 3 && QuoteCount("b\" ") == 1
  {
    PlainQuoteCount("\"u\": \"a");
    PlainQuoteCount("b\" ");
  }

  /** `StripLine` when the line's parts and the cut are known. */
  lemma StripLineCutAt(line: string, sym: string, parts: seq<string>, nr: nat)
    requires |sym| > 0 && Split(line, sym) == parts && CutFrom(parts, 0) == Some(nr)
    ensures nr < |parts| && StripLine(line, sym) == RStrip(Join(parts[..nr + 1], sym))
  {
  }

  lemma ExampleCut()
    ensures CutFrom(["\"u\": \"a", "b\" ", " c"], 0) == Some(1)
  {
    ExampleCounts();
    CutAfterSecond(["\"u\": \"a", "b\" ", " c"]);
  }

  /** Three counted quotes in the first part and one in the second put the cut after the second part. */
  lemma CutAfterSecond(parts: seq<string>)
    requires |parts| == 3 && QuoteCount(parts[0]) == 3 && QuoteCount(parts[1]) == 1
    ensures CutFrom(parts, 0) == Some(1)
  {
    assert Total(parts, 1) == 3;
    assert Total(parts, 2) == 4;
    CutFromIs(parts, 0, 1);
  }

  /** A `#` inside a quoted string is kept, while a trailing `# note` after balanced quotes is removed. */
  lemma StripLineExample(line: string, sym: string)
    requires line == "\"u\": \"a#b\" # c" && sym == "#"
    ensures StripLine(line, sym) == "\"u\": \"a#b\""
  {
    var parts := ["\"u\": \"a", "b\" ", " c"];
    var t := "\"u\": \"a#b\"";
    assert Split(line, sym) == parts by { ExampleSplit(); }
    assert QuoteCount(parts[0]) == 3 && QuoteCount(parts[1]) == 1 by { ExampleCounts(); }
    assert parts[0] + sym + parts[1] == t + " " by {
      assert parts[0] == "\"u\": \"a" && parts[1] == "b\" ";
      ExampleConcat();
    }
    assert |t| > 0 && !IsSpace(t[|t| - 1]);
    StripAfterSecond(line, sym, parts, t);
  }

  lemma ExampleConcat()
    ensures "\"u\": \"a" + "#" + "b\" " == "\"u\": \"a#b\"" + " "
  {
  }

  /** A line in three parts whose cut falls after the second part keeps the first two parts, right-stripped
      of the one space that ends them. */
  lemma StripAfterSecond(line: string, sym: string, parts: seq<string>, t: string)
    requires |sym| > 0 && Split(line, sym) == parts
    requires |parts| == 3 && QuoteCount(parts[0]) == 3 && QuoteCount(parts[1]) == 1
    requires |t| > 0 && !IsSpace(t[|t| - 1]) && parts[0] + sym + parts[1] == t + " "
    ensures StripLine(line, sym) == t
  {
    CutAfterSecond(parts);
    StripLineCutAt(line, sym, parts, 1);
    JoinFirstTwo(parts, sym);
    ExampleRStrip(parts[0] + sym + parts[1], t);
  }

  lemma JoinFirstTwo(parts: seq<string>, sep: string)
    requires |parts| >= 2
    ensures Join(parts[..2], sep) == parts[0] + sep + parts[1]
  {
    assert parts[..2] == [parts[0]] + [parts[1]];
    JoinCons(parts[0], [parts[1]], sep);
  }

  /** One trailing space is removed from a text whose last other character is not blank. */
  lemma ExampleRStrip(s: string, t: string)
    requires |t| > 0 && !IsSpace(t[|t| - 1]) && s == t + " "
    ensures RStrip(s) == t
  {
    assert s[..|s| - 1] == t;
  }

  // ---------------------------------------------------------------------------------------------
  // Whole texts.
  // ---------------------------------------------------------------------------------------------

  /** `str.splitlines()` for texts whose only line separator is `\n`: a final separator ends the last line
      rather than starting an empty one, and the empty text has no lines. */
  function SplitLines(text: string): seq<string> {
    if text == [] then []
    else
      var ps := Split(text, "\n");
      if ps[|ps| - 1] == [] then ps[..|ps| - 1] else ps
  }

  /** One line after each symbol of `symbols` was applied in turn. */
  function StripAll(line: string, symbols: seq<string>): string
    requires forall s :: s in symbols ==> |s| > 0
    decreases |symbols|
  {
    if symbols == [] then line else StripAll(StripLine(line, symbols[0]), symbols[1..])
  }

  /** Stripping with any sequence of symbols leaves a prefix of the line. */
  lemma {:induction false} StripAllPrefix(line: string, symbols: seq<string>)
    requires forall s :: s in symbols ==> |s| > 0
    ensures IsPrefix(StripAll(line, symbols), line)
    decreases |symbols|
  {
    if symbols != [] {
      var once := StripLine(line, symbols[0]);
      StripLinePrefix(line, symbols[0]);
      StripAllPrefix(once, symbols[1..]);
      PrefixTrans(StripAll(once, symbols[1..]), once, line);
    }
  }

  /** The inner loop of `strip_comments`: one line is stripped with each symbol in turn. */
  method StripLineAll(line: string, symbols: seq<string>) returns (r: string)
    requires forall s :: s in symbols ==> |s| > 0
    ensures r == StripAll(line, symbols)
  {
    r := line;
    var i := 0;
    while i < |symbols|
      invariant 0 <= i <= |symbols|
      invariant StripAll(r, symbols[i..]) == StripAll(line, symbols)
    {
      assert symbols[i..][1..] == symbols[i + 1..];
      r := StripCommentLine(r, symbols[i]);
      i := i + 1;
    }
  }

  /** Each line of `ls` stripped with every symbol. */
  function StrippedLines(ls: seq<string>, symbols: seq<string>): (out: seq<string>)
    requires forall s :: s in symbols ==> |s| > 0
    ensures |out| == |ls| && forall k :: 0 <= k < |ls| ==> out[k] == StripAll(ls[k], symbols)
  {
    seq(|ls|, k requires 0 <= k < |ls| => StripAll(ls[k], symbols))
  }

  /** `strip_comments(string, comment_symbols)`, with the iteration order of the symbol set as a sequence:
      the text's lines are overwritten one by one and joined with `\n`. */
  method StripComments(text: string, symbols: seq<string>) returns (r: string)
    requires forall s :: s in symbols ==> |s| > 0
    ensures r == Join(StrippedLines(SplitLines(text), symbols), "\n")
  {
    var lines := SplitLines(text);
    ghost var ls := lines;
    for k := 0 to |lines|
      invariant |lines| == |ls|
      invariant forall j :: 0 <= j < k ==> lines[j] == StripAll(ls[j], symbols)
      invariant forall j :: k <= j < |lines| ==> lines[j] == ls[j]
    {
      var line := StripLineAll(lines[k], symbols);
      lines := lines[k := line];
    }
    assert lines == StrippedLines(ls, symbols);
    r := Join(lines, "\n");
  }

  /** Every output line of `StripComments` is a prefix of its input line, one output line per input line. */
  lemma StripCommentsLines(text: string, symbols: seq<string>)
    requires forall s :: s in symbols ==> |s| > 0
    ensures var ls := SplitLines(text);
            var out := StrippedLines(ls, symbols);
            |out| == |ls| && forall k :: 0 <= k < |ls| ==> IsPrefix(out[k], ls[k])
  {
    var ls := SplitLines(text);
    forall k | 0 <= k < |ls| ensures IsPrefix(StripAll(ls[k], symbols), ls[k]) {
      StripAllPrefix(ls[k], symbols);
    }
  }
}
