/** The Python string operations the tools rely on: search, split, join, replace, strip and ASCII case. */
module Text {
  import opened Outcomes

  /** Python's `str.isspace` for a single character. */
  predicate IsSpace(c: char) {
    c == ' ' || ('\t' <= c <= '\r') || ('\U{1C}' <= c <= '\U{1F}') || c == '\U{85}' || c == '\U{A0}'
    || c == '\U{1680}' || ('\U{2000}' <= c <= '\U{200A}') || c == '\U{2028}' || c == '\U{2029}'
    || c == '\U{202F}' || c == '\U{205F}' || c == '\U{3000}'
  }

  predicate IsPrefix(p: string, s: string) {
    |p| <= |s| && s[..|p|] == p
  }

  /** `str.rstrip()`: the input without its trailing whitespace. */
  function RStrip(s: string): (r: string)
    ensures |r| <= |s| && forall i :: 0 <= i < |r| ==> r[i] == s[i]
    ensures r == [] || !IsSpace(r[|r| - 1])
    ensures forall i :: |r| <= i < |s| ==> IsSpace(s[i])
  {
    if |s| > 0 && IsSpace(s[|s| - 1]) then RStrip(s[..|s| - 1]) else s
  }

  /** `str.lstrip()`: the input without its leading whitespace. */
  function LStrip(s: string): (r: string)
    ensures |r| <= |s| && forall i :: 0 <= i < |r| ==> r[i] == s[|s| - |r| + i]
    ensures r == [] || !IsSpace(r[0])
    ensures forall i :: 0 <= i < |s| - |r| ==> IsSpace(s[i])
  {
    if |s| > 0 && IsSpace(s[0]) then LStrip(s[1..]) else s
  }

  /** `str.strip()`: whitespace removed at both ends. */
  function Strip(s: string): string {
    LStrip(RStrip(s))
  }

  predicate OccursAt(s: string, pat: string, j: int) {
    0 <= j && j + |pat| <= |s| && s[j..j + |pat|] == pat
  }

  predicate Contains(s: string, pat: string) {
    exists j :: 0 <= j <= |s| && OccursAt(s, pat, j)
  }

  /** `s.split(sep)` for a non-empty separator: cut at every non-overlapping occurrence, left to right. */
  function Split(s: string, sep: string): (r: seq<string>)
    requires |sep| > 0
    ensures |r| >= 1
  {
    SplitFrom(s, sep, 0, 0)
  }

  /** The pieces of `s[start..]`, scanning for the separator from index `i` (nothing matches in `[start, i)`). */
  function SplitFrom(s: string, sep: string, start: nat, i: nat): (r: seq<string>)
    requires |sep| > 0 && start <= i <= |s|
    decreases |s| - i
    ensures |r| >= 1
  {
    if i + |sep| > |s| then [s[start..]]
    else if s[i..i + |sep|] == sep then [s[start..i]] + SplitFrom(s, sep, i + |sep|, i + |sep|)
    else SplitFrom(s, sep, start, i + 1)
  }

  /** `sep.join(parts)`. */
  function Join(parts: seq<string>, sep: string): string {
    if |parts| == 0 then ""
    else if |parts| == 1 then parts[0]
    else parts[0] + sep + Join(parts[1..], sep)
  }

  /** `s.replace(pat, rep)`: every non-overlapping occurrence, left to right, is replaced. */
  function ReplaceAll(s: string, pat: string, rep: string): string
    requires |pat| > 0
  {
    Join(Split(s, pat), rep)
  }

  lemma JoinCons(x: string, r: seq<string>, sep: string)
    requires |r| >= 1
    ensures Join([x] + r, sep) == x + sep + Join(r, sep)
  {
    assert ([x] + r)[1..] == r;
  }

  lemma {:induction false} JoinSplitFrom(s: string, sep: string, start: nat, i: nat)
    requires |sep| > 0 && start <= i <= |s|
    ensures Join(SplitFrom(s, sep, start, i), sep) == s[start..]
    decreases |s| - i
  {
    if i + |sep| > |s| {
    } else if s[i..i + |sep|] == sep {
      JoinSplitFrom(s, sep, i + |sep|, i + |sep|);
      JoinSplitHit(s, sep, start, i);
    } else {
      JoinSplitFrom(s, sep, start, i + 1);
    }
  }

  /** One cut of the scan: the piece before the separator, the separator, and the rest joined back. */
  lemma JoinSplitHit(s: string, sep: string, start: nat, i: nat)
    requires |sep| > 0 && start <= i && i + |sep| <= |s| && s[i..i + |sep|] == sep
    requires Join(SplitFrom(s, sep, i + |sep|, i + |sep|), sep) == s[i + |sep|..]
    ensures Join(SplitFrom(s, sep, start, i), sep) == s[start..]
  {
    var rest := SplitFrom(s, sep, i + |sep|, i + |sep|);
    assert SplitFrom(s, sep, start, i) == [s[start..i]] + rest;
    JoinCons(s[start..i], rest, sep);
    SliceCut(s, start, i, i + |sep|);
  }

  /** Splitting and joining again with the same separator gives the original string back. */
  lemma JoinSplit(s: string, sep: string)
    requires |sep| > 0
    ensures Join(Split(s, sep), sep) == s
  {
    JoinSplitFrom(s, sep, 0, 0);
  }

  lemma {:induction false} SplitFromWithout(s: string, sep: string, start: nat, i: nat)
    requires |sep| > 0 && start <= i <= |s|
    requires forall j :: i <= j ==> !OccursAt(s, sep, j)
    ensures SplitFrom(s, sep, start, i) == [s[start..]]
    decreases |s| - i
  {
    if i + |sep| <= |s| {
      assert !OccursAt(s, sep, i);
      SplitFromWithout(s, sep, start, i + 1);
    }
  }

  /** A string without the separator is split into itself alone. */
  lemma SplitWithout(s: string, sep: string)
    requires |sep| > 0 && !Contains(s, sep)
    ensures Split(s, sep) == [s]
  {
    SplitFromWithout(s, sep, 0, 0);
  }

  /** Joining the first `k` parts gives a prefix of joining them all. */
  lemma {:induction false} JoinPrefix(parts: seq<string>, sep: string, k: nat)
    requires 1 <= k <= |parts|
    ensures IsPrefix(Join(parts[..k], sep), Join(parts, sep))
  {
    if k < |parts| {
      var tail := Join(parts[1..], sep);
      assert Join(parts, sep) == parts[0] + sep + tail;
      if k == 1 {
        assert parts[..1] == [parts[0]];
        assert Join(parts, sep)[..|parts[0]|] == parts[0];
      } else {
        JoinPrefix(parts[1..], sep, k - 1);
        assert parts[..k][1..] == parts[1..][..k - 1];
        var head := Join(parts[1..][..k - 1], sep);
        assert Join(parts[..k], sep) == parts[0] + sep + head;
        assert tail[..|head|] == head;
        assert (parts[0] + sep + tail)[..|parts[0] + sep + head|] == parts[0] + sep + head;
      }
    } else {
      assert parts[..k] == parts;
    }
  }

  /** Scanning skips a stretch without the separator. */
  lemma {:induction false} SplitFromSkip(s: string, sep: string, start: nat, i: nat, k: nat)
    requires |sep| > 0 && start <= i <= k <= |s|
    requires forall j :: i <= j < k ==> !OccursAt(s, sep, j)
    ensures SplitFrom(s, sep, start, i) == SplitFrom(s, sep, start, k)
    decreases k - i
  {
    if i < k {
      assert !OccursAt(s, sep, i);
      SplitFromSkip(s, sep, start, i + 1, k);
    }
  }

  /** Scanning a string behind a prefix that the scan has already passed is scanning the string alone. */
  lemma {:induction false} SplitFromShift(p: string, s: string, sep: string, a: nat, b: nat)
    requires |sep| > 0 && a <= b <= |s|
    ensures SplitFrom(p + s, sep, |p| + a, |p| + b) == SplitFrom(s, sep, a, b)
    decreases |s| - b
  {
    var n := |sep|;
    if b + n > |s| {
      assert (p + s)[|p| + a..] == s[a..];
    } else if s[b..b + n] == sep {
      SplitFromShift(p, s, sep, b + n, b + n);
      ShiftHit(p, s, sep, a, b);
    } else {
      SplitFromShift(p, s, sep, a, b + 1);
      ShiftMiss(p, s, sep, a, b);
    }
  }

  lemma ShiftHit(p: string, s: string, sep: string, a: nat, b: nat)
    requires |sep| > 0 && a <= b && b + |sep| <= |s| && s[b..b + |sep|] == sep
    requires SplitFrom(p + s, sep, |p| + b + |sep|, |p| + b + |sep|) == SplitFrom(s, sep, b + |sep|, b + |sep|)
    ensures SplitFrom(p + s, sep, |p| + a, |p| + b) == SplitFrom(s, sep, a, b)
  {
    var t := p + s;
    SliceShift(p, s, b, b + |sep|);
    SliceShift(p, s, a, b);
    assert SplitFrom(t, sep, |p| + a, |p| + b) == [s[a..b]] + SplitFrom(t, sep, |p| + b + |sep|, |p| + b + |sep|);
  }

  lemma ShiftMiss(p: string, s: string, sep: string, a: nat, b: nat)
    requires |sep| > 0 && a <= b && b + |sep| <= |s| && s[b..b + |sep|] != sep
    requires SplitFrom(p + s, sep, |p| + a, |p| + b + 1) == SplitFrom(s, sep, a, b + 1)
    ensures SplitFrom(p + s, sep, |p| + a, |p| + b) == SplitFrom(s, sep, a, b)
  {
    var t := p + s;
    SliceShift(p, s, b, b + |sep|);
    assert SplitFrom(t, sep, |p| + a, |p| + b) == SplitFrom(t, sep, |p| + a, |p| + b + 1);
  }

  /** A slice of the appended part, read in the concatenation. */
  lemma SliceShift(p: string, s: string, i: nat, j: nat)
    requires i <= j <= |s|
    ensures (p + s)[|p| + i..|p| + j] == s[i..j]
  {
  }

  /** A suffix cut in three at two indices. */
  lemma SliceCut(s: string, a: nat, b: nat, c: nat)
    requires a <= b <= c <= |s|
    ensures s[a..] == s[a..b] + s[b..c] + s[c..]
  {
  }

  /** Joining parts that do not contain a one-character separator and splitting again gives the parts back. */
  lemma {:induction false} SplitJoin(parts: seq<string>, c: char)
    requires |parts| >= 1
    requires forall x :: x in parts ==> c !in x
    ensures Split(Join(parts, [c]), [c]) == parts
  {
    var x := parts[0];
    assert x in parts;
    if |parts| == 1 {
      forall j | 0 <= j ensures !OccursAt(x, [c], j) {
        if j + 1 <= |x| {
          assert x[j..j + 1] == [x[j]];
          assert x[j] != c;
        }
      }
      SplitWithout(x, [c]);
    } else {
      var rest := Join(parts[1..], [c]);
      var t := Join(parts, [c]);
      assert t == (x + [c]) + rest;
      forall j | 0 <= j < |x| ensures !OccursAt(t, [c], j) {
        assert t[j..j + 1] == [x[j]];
        assert x[j] != c;
      }
      SplitFromSkip(t, [c], 0, 0, |x|);
      assert t[|x|..|x| + 1] == [c];
      assert t[0..|x|] == x;
      SplitFromShift(x + [c], rest, [c], 0, 0);
      forall y | y in parts[1..] ensures c !in y { assert y in parts; }
      SplitJoin(parts[1..], c);
      assert Split(t, [c]) == [x] + parts[1..];
    }
  }

  /** A replacement leaves a string that lacks the pattern unchanged. */
  lemma ReplaceAbsent(s: string, pat: string, rep: string)
    requires |pat| > 0 && !Contains(s, pat)
    ensures ReplaceAll(s, pat, rep) == s
  {
    SplitWithout(s, pat);
  }

  function UpperChar(c: char): (r: char)
    ensures 'a' <= c <= 'z' ==> 'A' <= r <= 'Z'
  {
    if 'a' <= c <= 'z' then (c as int - 32) as char else c
  }

  function LowerChar(c: char): (r: char)
    ensures 'A' <= c <= 'Z' ==> 'a' <= r <= 'z'
  {
    if 'A' <= c <= 'Z' then (c as int + 32) as char else c
  }

  /** `str.lower()` on ASCII letters; other characters are kept. */
  function Lower(s: string): (r: string)
    ensures |r| == |s| && forall i :: 0 <= i < |s| ==> r[i] == LowerChar(s[i])
  {
    if s == [] then [] else [LowerChar(s[0])] + Lower(s[1..])
  }

  /** How often character `c` occurs in `s`. */
  function CountChar(s: string, c: char): nat {
    if s == [] then 0 else (if s[0] == c then 1 else 0) + CountChar(s[1..], c)
  }

  lemma {:induction false} CountCharAppend(a: string, b: string, c: char)
    ensures CountChar(a + b, c) == CountChar(a, c) + CountChar(b, c)
  {
    if a == [] {
      assert a + b == b;
    } else {
      assert (a + b)[0] == a[0];
      assert (a + b)[1..] == a[1..] + b;
      CountCharAppend(a[1..], b, c);
    }
  }

  /** `s` split at character `c` has an empty piece: `s` is empty, starts or ends with `c`, or holds `c` twice
      in a row. */
  predicate HasEmptyPiece(s: string, c: char) {
    s == [] || s[0] == c || s[|s| - 1] == c || exists j :: 0 <= j < |s| - 1 && s[j] == c && s[j + 1] == c
  }

  lemma {:induction false} SplitFromFree(s: string, c: char, start: nat, i: nat)
    requires start <= i <= |s|
    requires forall j :: start <= j < i ==> s[j] != c
    ensures forall x :: x in SplitFrom(s, [c], start, i) ==> c !in x
    decreases |s| - i
  {
    if i + 1 > |s| {
    } else if s[i..i + 1] == [c] {
      SplitFromFree(s, c, i + 1, i + 1);
    } else {
      assert s[i] != c by { assert s[i..i + 1] == [s[i]]; }
      SplitFromFree(s, c, start, i + 1);
    }
  }

  /** No piece of a split at a one-character separator contains the separator. */
  lemma SplitFree(s: string, c: char)
    ensures forall x :: x in Split(s, [c]) ==> c !in x
  {
    SplitFromFree(s, c, 0, 0);
  }

  /** Pieces without `c`, joined with `c`, show an empty piece exactly when one of them is empty. */
  lemma {:induction false} JoinEmptyPiece(parts: seq<string>, c: char)
    requires |parts| >= 1
    requires forall x :: x in parts ==> c !in x
    ensures HasEmptyPiece(Join(parts, [c]), c) <==> exists i :: 0 <= i < |parts| && parts[i] == []
  {
    var x := parts[0];
    assert x in parts;
    if |parts| == 1 {
      if x != [] {
        assert x[0] != c && x[|x| - 1] != c;
        assert forall j :: 0 <= j < |x| - 1 ==> x[j] != c;
      }
    } else {
      var r := Join(parts[1..], [c]);
      var t := Join(parts, [c]);
      assert t == x + [c] + r;
      forall y | y in parts[1..] ensures c !in y { assert y in parts; }
      JoinEmptyPiece(parts[1..], c);
      assert (exists i :: 0 <= i < |parts| && parts[i] == [])
         <==> x == [] || exists i :: 0 <= i < |parts[1..]| && parts[1..][i] == [] by {
        if exists i :: 0 <= i < |parts| && parts[i] == [] {
          var i :| 0 <= i < |parts| && parts[i] == [];
          if i > 0 { assert parts[1..][i - 1] == []; }
        }
        if exists i :: 0 <= i < |parts[1..]| && parts[1..][i] == [] {
          var i :| 0 <= i < |parts[1..]| && parts[1..][i] == [];
          assert parts[i + 1] == [];
        }
      }
      JoinEmptyPieceStep(x, r, c);
    }
  }

  /** One step of the join: `x + c + r` shows an empty piece exactly when `x` is empty or `r` shows one. */
  lemma JoinEmptyPieceStep(x: string, r: string, c: char)
    requires c !in x
    ensures HasEmptyPiece(x + [c] + r, c) <==> x == [] || HasEmptyPiece(r, c)
  {
    var t := x + [c] + r;
    var n := |x|;
    if x == [] {
      assert t[0] == c;
    } else if HasEmptyPiece(r, c) {
      if r == [] {
        assert t[|t| - 1] == c;
      } else if r[0] == c {
        assert t[n] == c && t[n + 1] == c;
      } else if r[|r| - 1] == c {
        assert t[|t| - 1] == r[|r| - 1];
      } else {
        var j :| 0 <= j < |r| - 1 && r[j] == c && r[j + 1] == c;
        assert t[n + 1 + j] == c && t[n + 1 + j + 1] == c;
      }
    } else {
      assert t[0] == x[0] && x[0] in x;
      assert t[|t| - 1] == r[|r| - 1];
      forall j | 0 <= j < |t| - 1 ensures !(t[j] == c && t[j + 1] == c) {
        if j < n {
          assert t[j] == x[j] && x[j] in x;
        } else if j == n {
          assert t[j + 1] == r[0];
        } else {
          assert t[j] == r[j - n - 1] && t[j + 1] == r[j - n];
        }
      }
    }
  }

  /** The summed lengths of the pieces. */
  function TotalLength(parts: seq<string>): nat {
    if parts == [] then 0 else |parts[0]| + TotalLength(parts[1..])
  }

  lemma {:induction false} CountAbsent(s: string, c: char)
    requires c !in s
    ensures CountChar(s, c) == 0
  {
    if s != [] {
      assert s == [s[0]] + s[1..];
      CountAbsent(s[1..], c);
    }
  }

  /** Joining pieces without `c` with `c` adds one `c` between each two pieces and nothing else. */
  lemma {:induction false} JoinCount(parts: seq<string>, c: char)
    requires |parts| >= 1
    requires forall x :: x in parts ==> c !in x
    ensures |Join(parts, [c])| == TotalLength(parts) + |parts| - 1
    ensures CountChar(Join(parts, [c]), c) == |parts| - 1
  {
    var x := parts[0];
    assert x in parts;
    CountAbsent(x, c);
    if |parts| == 1 {
      assert parts[1..] == [];
    } else {
      var r := Join(parts[1..], [c]);
      forall y | y in parts[1..] ensures c !in y { assert y in parts; }
      JoinCount(parts[1..], c);
      CountCharAppend(x, [c], c);
      CountCharAppend(x + [c], r, c);
      assert CountChar([c], c) == 1 by { assert [c][1..] == []; }
    }
  }

  /** Text without upper-case ASCII letters is already lower case. */
  lemma LowerKeeps(s: string)
    requires forall i :: 0 <= i < |s| ==> !('A' <= s[i] <= 'Z')
    ensures Lower(s) == s
  {
  }

  /** A word padded with one space on each side strips back to the word. */
  lemma StripPadded(w: string)
    requires w != [] && !IsSpace(w[0]) && !IsSpace(w[|w| - 1])
    ensures Strip([' '] + w + [' ']) == w
  {
    var s := [' '] + w + [' '];
    assert s[..|s| - 1] == [' '] + w;
    assert RStrip(s) == [' '] + w;
    assert ([' '] + w)[1..] == w;
  }

  /** A pattern at the start of a text that holds it nowhere else is replaced once. */
  lemma ReplaceLeading(pat: string, b: string, rep: string)
    requires |pat| > 0 && !Contains(b, pat)
    ensures ReplaceAll(pat + b, pat, rep) == rep + b
  {
    var s := pat + b;
    assert s[0..|pat|] == pat;
    SplitFromShift(pat, b, pat, 0, 0);
    SplitWithout(b, pat);
    assert Split(s, pat) == [""] + [b];
    assert Join([""] + [b], rep) == "" + rep + Join([b], rep);
  }

  /** A pattern at the end of a text, whose first character does not occur before it, is replaced once. */
  lemma ReplaceTrailing(a: string, pat: string, rep: string)
    requires |pat| > 0 && pat[0] !in a
    ensures ReplaceAll(a + pat, pat, rep) == a + rep
  {
    var s := a + pat;
    forall j | 0 <= j < |a| ensures !OccursAt(s, pat, j) {
      assert s[j] == a[j];
    }
    SplitFromSkip(s, pat, 0, 0, |a|);
    assert s[|a|..|a| + |pat|] == pat;
    assert s[0..|a|] == a;
    assert |s| == |a| + |pat| && s[|s|..] == "";
    assert SplitFrom(s, pat, |a| + |pat|, |a| + |pat|) == [""];
    assert Split(s, pat) == [a] + [""];
    assert Join([a] + [""], rep) == a + rep + Join([""], rep);
  }

  /** Every element satisfies `p`, checked front to back. */
  predicate All<T>(xs: seq<T>, p: T -> bool)
    decreases |xs|
  {
    xs == [] || (p(xs[0]) && All(xs[1..], p))
  }

  lemma {:induction false} AllEach<T>(xs: seq<T>, p: T -> bool)
    ensures All(xs, p) <==> forall i :: 0 <= i < |xs| ==> p(xs[i])
    decreases |xs|
  {
    if xs != [] {
      AllEach(xs[1..], p);
      assert forall i :: 1 <= i < |xs| ==> xs[i] == xs[1..][i - 1];
    }
  }
}
