/**
 * String primitives with the semantics of the JavaScript built-ins the
 * extension relies on: `trim`, `startsWith`, `endsWith`, `split('\n')`,
 * `join('\n')` and global `replace`.
 */
module Text {
  import opened Optional

  /** ECMAScript WhiteSpace and LineTerminator code points, as removed by `trim`. */
  predicate IsSpace(c: char) {
    var n := c as int;
    n == 0x09 || n == 0x0A || n == 0x0B || n == 0x0C || n == 0x0D || n == 0x20
    || n == 0xA0 || n == 0x1680 || (0x2000 <= n <= 0x200A)
    || n == 0x2028 || n == 0x2029 || n == 0x202F || n == 0x205F
    || n == 0x3000 || n == 0xFEFF
  }

  /** A line terminator for the `.` of a JavaScript regular expression. */
  predicate IsLineTerminator(c: char) {
    c == '\n' || c == '\r' || c as int == 0x2028 || c as int == 0x2029
  }

  predicate StartsWith(s: string, prefix: string) {
    |prefix| <= |s| && s[..|prefix|] == prefix
  }

  predicate EndsWith(s: string, suffix: string) {
    |suffix| <= |s| && s[|s| - |suffix|..] == suffix
  }

  function TrimStart(s: string): (r: string)
    ensures r == [] || !IsSpace(r[0])
    decreases |s|
  {
    if s != [] && IsSpace(s[0]) then TrimStart(s[1..]) else s
  }

  function TrimEnd(s: string): (r: string)
    ensures r == [] || !IsSpace(r[|r| - 1])
    decreases |s|
  {
    if s != [] && IsSpace(s[|s| - 1]) then TrimEnd(s[..|s| - 1]) else s
  }

  /** `String.prototype.trim`. */
  function Trim(s: string): (r: string)
    ensures r == [] || (!IsSpace(r[0]) && !IsSpace(r[|r| - 1]))
  {
    var t := TrimStart(s);
    if t == [] then t
    else
      TrimEndKeepsHead(t);
      TrimEnd(t)
  }

  /** The length of the run of white space `s` starts with. */
  function LeadingSpaces(s: string): (n: nat)
    ensures n <= |s|
    decreases |s|
  {
    if s != [] && IsSpace(s[0]) then 1 + LeadingSpaces(s[1..]) else 0
  }

  /** The length of the run of white space `s` ends with. */
  function TrailingSpaces(s: string): (n: nat)
    ensures n <= |s|
    decreases |s|
  {
    if s != [] && IsSpace(s[|s| - 1]) then 1 + TrailingSpaces(s[..|s| - 1]) else 0
  }

  /** Trimming the start drops the run of leading white space and nothing else. */
  lemma {:induction false} TrimStartDrops(s: string)
    ensures TrimStart(s) == s[LeadingSpaces(s)..]
    ensures forall k :: 0 <= k < LeadingSpaces(s) ==> IsSpace(s[k])
    decreases |s|
  {
    if s != [] && IsSpace(s[0]) {
      var u := s[1..];
      TrimStartDrops(u);
      assert u[LeadingSpaces(u)..] == s[LeadingSpaces(s)..];
      forall k | 0 < k < LeadingSpaces(s)
        ensures IsSpace(s[k])
      {
        assert s[k] == u[k - 1];
      }
    }
  }

  /** Trimming the end drops the run of trailing white space and nothing else. */
  lemma {:induction false} TrimEndDrops(s: string)
    ensures TrimEnd(s) == s[..|s| - TrailingSpaces(s)]
    ensures forall k :: |s| - TrailingSpaces(s) <= k < |s| ==> IsSpace(s[k])
    decreases |s|
  {
    if s != [] && IsSpace(s[|s| - 1]) {
      var u := s[..|s| - 1];
      TrimEndDrops(u);
      assert u[..|u| - TrailingSpaces(u)] == s[..|s| - TrailingSpaces(s)];
      forall k | |s| - TrailingSpaces(s) <= k < |s| - 1
        ensures IsSpace(s[k])
      {
        assert s[k] == u[k];
      }
    }
  }

  /**
   * `Trim` cuts out the infix between a run of leading and a run of trailing white
   * space; with the contract of `Trim` this fixes its result exactly.
   */
  lemma TrimExact(s: string)
    ensures exists i, j :: 0 <= i <= j <= |s| && Trim(s) == s[i..j]
                           && (forall k :: 0 <= k < i ==> IsSpace(s[k]))
                           && (forall k :: j <= k < |s| ==> IsSpace(s[k]))
  {
    var i := LeadingSpaces(s);
    TrimStartDrops(s);
    var t := s[i..];
    var j := i + (|t| - TrailingSpaces(t));
    TrimEndDrops(t);
    assert t[..|t| - TrailingSpaces(t)] == s[i..j];
    assert Trim(s) == s[i..j];
    forall k | j <= k < |s|
      ensures IsSpace(s[k])
    {
      assert s[k] == t[k - i];
    }
    assert 0 <= i <= j <= |s| && Trim(s) == s[i..j];
  }

  /** A string with no surrounding whitespace is its own trim. */
  lemma TrimOfTrimmed(s: string)
    requires s == [] || (!IsSpace(s[0]) && !IsSpace(s[|s| - 1]))
    ensures Trim(s) == s
  {
    assert TrimStart(s) == s;
    assert TrimEnd(s) == s;
  }

  /** Trimming the start of text that ends in a non-space character keeps that character last. */
  lemma {:induction false} TrimStartKeepsLast(s: string)
    requires s != [] && !IsSpace(s[|s| - 1])
    ensures TrimStart(s) != [] && TrimStart(s)[|TrimStart(s)| - 1] == s[|s| - 1]
    decreases |s|
  {
    if IsSpace(s[0]) {
      assert |s| > 1;
      assert s[1..][|s[1..]| - 1] == s[|s| - 1];
      TrimStartKeepsLast(s[1..]);
    }
  }

  /** Text that ends in a non-space character does not trim to nothing. */
  lemma TrimNonEmpty(s: string)
    requires s != [] && !IsSpace(s[|s| - 1])
    ensures Trim(s) != []
  {
    TrimStartKeepsLast(s);
    var t := TrimStart(s);
    assert TrimEnd(t) == t;
  }

  lemma {:induction false} TrimEndKeepsHead(s: string)
    requires s != [] && !IsSpace(s[0])
    ensures TrimEnd(s) != [] && TrimEnd(s)[0] == s[0]
    decreases |s|
  {
    if IsSpace(s[|s| - 1]) {
      assert |s| > 1;
      assert s[..|s| - 1][0] == s[0];
      TrimEndKeepsHead(s[..|s| - 1]);
    }
  }

  /** Trimming text that starts with a non-space character keeps that character first. */
  lemma TrimKeepsHead(s: string)
    requires s != [] && !IsSpace(s[0])
    ensures Trim(s) != [] && Trim(s)[0] == s[0]
  {
    assert TrimStart(s) == s;
    TrimEndKeepsHead(s);
  }

  /** A trimmed line that starts with a keyword ending in a space continues past it. */
  lemma TrimmedKeywordHasRest(t: string, keyword: string)
    requires t == Trim(t) && StartsWith(t, keyword)
    requires keyword != [] && IsSpace(keyword[|keyword| - 1])
    ensures |t| > |keyword| && Trim(t[|keyword|..]) != []
  {
    assert t[|keyword| - 1] == keyword[|keyword| - 1];
    var rest := t[|keyword|..];
    assert rest[|rest| - 1] == t[|t| - 1];
    TrimNonEmpty(rest);
  }

  /** `s.includes(c)` for one character. */
  predicate Contains(s: string, c: char) {
    c in s
  }

  /** Joining a list with at least two lines puts a newline after the first. */
  lemma JoinCons(x: string, rest: seq<string>)
    requires |rest| >= 1
    ensures Join([x] + rest) == x + "\n" + Join(rest)
  {
    assert ([x] + rest)[1..] == rest;
  }

  /** Joining a concatenation of two non-empty line lists. */
  lemma {:induction false} JoinAppend(a: seq<string>, b: seq<string>)
    requires |a| >= 1 && |b| >= 1
    ensures Join(a + b) == Join(a) + "\n" + Join(b)
    decreases |a|
  {
    if |a| == 1 {
      assert (a + b)[1..] == b;
    } else {
      assert (a + b)[1..] == a[1..] + b;
      JoinAppend(a[1..], b);
    }
  }

  /** `s.split('\n')`: never empty, and no piece holds a newline. */
  function Split(s: string): (r: seq<string>)
    ensures |r| >= 1
    ensures forall k :: 0 <= k < |r| ==> '\n' !in r[k]
    decreases |s|
  {
    if s == [] then [""]
    else
      var rest := Split(s[1..]);
      if s[0] == '\n' then [""] + rest
      else [[s[0]] + rest[0]] + rest[1..]
  }

  /** `lines.join('\n')`; the empty list joins to the empty string. */
  function Join(lines: seq<string>): string
    decreases |lines|
  {
    if |lines| == 0 then ""
    else if |lines| == 1 then lines[0]
    else lines[0] + "\n" + Join(lines[1..])
  }

  lemma {:induction false} SplitNoNewline(s: string)
    requires '\n' !in s
    ensures Split(s) == [s]
    decreases |s|
  {
    if s != [] {
      assert '\n' !in s[1..];
      SplitNoNewline(s[1..]);
      assert s == [s[0]] + s[1..];
    }
  }

  /** Splitting distributes over a newline-separated concatenation. */
  lemma {:induction false} SplitAppend(a: string, b: string)
    ensures Split(a + "\n" + b) == Split(a) + Split(b)
    decreases |a|
  {
    if a == [] {
      assert a + "\n" + b == "\n" + b;
      assert ("\n" + b)[1..] == b;
    } else {
      assert (a + "\n" + b)[0] == a[0];
      assert (a + "\n" + b)[1..] == a[1..] + "\n" + b;
      SplitAppend(a[1..], b);
    }
  }

  /** Splitting a join at its first separator. */
  lemma SplitJoinCons(x: string, rest: seq<string>)
    requires |rest| >= 1
    ensures Split(Join([x] + rest)) == Split(x) + Split(Join(rest))
  {
    JoinCons(x, rest);
    SplitAppend(x, Join(rest));
  }

  /** Text followed by a join that starts with an empty line: the text's own lines come first. */
  lemma SplitAfterBlank(c: string, rest: seq<string>)
    requires |rest| >= 1
    ensures Split(c + Join([""] + rest)) == Split(c) + Split(Join(rest))
  {
    JoinCons("", rest);
    assert "" + "\n" + Join(rest) == "\n" + Join(rest);
    assert c + Join([""] + rest) == c + "\n" + Join(rest);
    SplitAppend(c, Join(rest));
  }

  /** The same with the join's next two lines taken apart as well. */
  lemma SplitAfterBlankThree(c: string, l: seq<string>)
    requires |l| >= 4 && l[0] == ""
    ensures Split(c + Join(l)) == Split(c) + (Split(l[1]) + (Split(l[2]) + Split(Join(l[3..]))))
  {
    assert l == [""] + l[1..];
    assert l[1..] == [l[1]] + l[2..];
    assert l[2..] == [l[2]] + l[3..];
    SplitAfterBlank(c, l[1..]);
    SplitJoinCons(l[1], l[2..]);
    SplitJoinCons(l[2], l[3..]);
  }

  /** Newline-free lines after an empty first line come back exactly. */
  lemma SplitAfterBlankExact(c: string, l: seq<string>)
    requires |l| >= 2 && l[0] == ""
    requires forall k :: 0 <= k < |l| ==> '\n' !in l[k]
    ensures Split(c + Join(l)) == Split(c) + l[1..]
  {
    assert l == [""] + l[1..];
    SplitAfterBlank(c, l[1..]);
    SplitJoin(l[1..]);
  }

  /** Joining the pieces of a split gives back the text. */
  lemma {:induction false} JoinSplit(s: string)
    ensures Join(Split(s)) == s
    decreases |s|
  {
    if s != [] {
      var rest := Split(s[1..]);
      JoinSplit(s[1..]);
      if s[0] == '\n' {
        assert Split(s) == [""] + rest;
        assert ([""] + rest)[1..] == rest;
      } else {
        var r := Split(s);
        assert r == [[s[0]] + rest[0]] + rest[1..];
        if |rest| == 1 {
          assert Join(r) == [s[0]] + rest[0];
        } else {
          assert r[1..] == rest[1..];
          assert Join(rest) == rest[0] + "\n" + Join(rest[1..]);
          assert Join(r) == ([s[0]] + rest[0]) + "\n" + Join(rest[1..]);
        }
        assert s == [s[0]] + s[1..];
      }
    }
  }

  /** Splitting a join of newline-free lines gives back the lines. */
  lemma {:induction false} SplitJoin(lines: seq<string>)
    requires |lines| >= 1
    requires forall k :: 0 <= k < |lines| ==> '\n' !in lines[k]
    ensures Split(Join(lines)) == lines
    decreases |lines|
  {
    if |lines| == 1 {
      SplitNoNewline(lines[0]);
    } else {
      SplitJoin(lines[1..]);
      SplitAppend(lines[0], Join(lines[1..]));
      SplitNoNewline(lines[0]);
      assert lines == [lines[0]] + lines[1..];
    }
  }

  /**
   * `s.replace(/pat/g, rep)` for a literal pattern: matches are found left to
   * right and do not overlap.
   */
  function ReplaceAll(s: string, pat: string, rep: string): string
    requires pat != []
    decreases |s|
  {
    if |s| < |pat| then s
    else if s[..|pat|] == pat then rep + ReplaceAll(s[|pat|..], pat, rep)
    else [s[0]] + ReplaceAll(s[1..], pat, rep)
  }

  /** Text that holds no occurrence of the pattern's first character passes through. */
  lemma {:induction false} ReplaceAllSkips(x: string, y: string, pat: string, rep: string)
    requires pat != [] && pat[0] !in x
    ensures ReplaceAll(x + y, pat, rep) == x + ReplaceAll(y, pat, rep)
    decreases |x|
  {
    if x == [] {
      assert x + y == y;
    } else {
      var s := x + y;
      if |s| < |pat| {
        ReplaceAllShort(y, pat, rep);
        assert ReplaceAll(s, pat, rep) == s;
      } else {
        assert s[0] == x[0];
        assert s[..|pat|] != pat;
        assert s[1..] == x[1..] + y;
        assert pat[0] !in x[1..];
        ReplaceAllSkips(x[1..], y, pat, rep);
        assert ReplaceAll(s, pat, rep) == [x[0]] + ReplaceAll(s[1..], pat, rep);
        assert x == [x[0]] + x[1..];
      }
    }
  }

  lemma ReplaceAllShort(s: string, pat: string, rep: string)
    requires pat != [] && |s| < |pat|
    ensures ReplaceAll(s, pat, rep) == s
  {
  }

  /** Where the text does not start with the pattern, its first character is kept. */
  lemma ReplaceAllMiss(s: string, pat: string, rep: string)
    requires pat != [] && |s| >= |pat| && s[..|pat|] != pat
    ensures ReplaceAll(s, pat, rep) == [s[0]] + ReplaceAll(s[1..], pat, rep)
  {
  }

  /** A match at the very start is replaced and scanning resumes after it. */
  lemma ReplaceAllHead(y: string, pat: string, rep: string)
    requires pat != []
    ensures ReplaceAll(pat + y, pat, rep) == rep + ReplaceAll(y, pat, rep)
  {
    assert (pat + y)[..|pat|] == pat;
    assert (pat + y)[|pat|..] == y;
  }

  /** `s.indexOf(c)` for one character, `None` standing for -1. */
  function IndexOf(s: string, c: char): (r: Option<nat>)
    ensures r.Some? ==> r.value < |s| && s[r.value] == c && c !in s[..r.value]
    ensures r.None? <==> c !in s
    decreases |s|
  {
    if s == [] then None
    else if s[0] == c then Some(0)
    else
      match IndexOf(s[1..], c)
      case None => None
      case Some(k) =>
        assert s[..k + 1] == [s[0]] + s[1..][..k];
        Some(k + 1)
  }

  /** The first occurrence of `c` in `x + [c] + y` is the one after `x` when `x` has none. */
  lemma IndexOfAfter(x: string, c: char, y: string)
    requires c !in x
    ensures IndexOf(x + [c] + y, c) == Some(|x|)
  {
    var s := x + [c] + y;
    assert s[|x|] == c;
    assert s[..|x|] == x;
    assert c in s;
  }
}
