/** The JavaScript string primitives the core relies on, stated on `seq<char>`:
    `trim`, `split` on one character, `join`, literal `replaceAll`, `repeat`,
    `lastIndexOf`, and the `.` / `\s` character classes of ECMAScript regular
    expressions (without the `u`, `s` or `m` flags). */
module Text {

  import opened Wrappers

  /** ECMAScript WhiteSpace and LineTerminator code points: the characters that
      `String.prototype.trim` removes and that `\s` matches. */
  predicate IsSpace(c: char) {
    c == '\t' || c == '\n' || c == '\U{0B}' || c == '\U{0C}' || c == '\r' || c == ' '
    || c == '\U{A0}' || c == '\U{1680}' || ('\U{2000}' <= c <= '\U{200A}')
    || c == '\U{2028}' || c == '\U{2029}' || c == '\U{202F}' || c == '\U{205F}'
    || c == '\U{3000}' || c == '\U{FEFF}'
  }

  /** The characters that `.` does not match. */
  predicate IsLineTerminator(c: char) {
    c == '\n' || c == '\r' || c == '\U{2028}' || c == '\U{2029}'
  }

  /** `trimStart`: the suffix of `s` left after dropping its leading white space. */
  function TrimStart(s: string): (r: string)
    ensures |r| <= |s| && r == s[|s| - |r|..]
    ensures forall k :: 0 <= k < |s| - |r| ==> IsSpace(s[k])
    ensures |r| > 0 ==> !IsSpace(r[0])
    decreases |s|
  {
    if |s| > 0 && IsSpace(s[0]) then TrimStart(s[1..]) else s
  }

  /** `trimEnd`: the prefix of `s` left after dropping its trailing white space. */
  function TrimEnd(s: string): (r: string)
    ensures |r| <= |s| && r == s[..|r|]
    ensures forall k :: |r| <= k < |s| ==> IsSpace(s[k])
    ensures |r| > 0 ==> !IsSpace(r[|r| - 1])
    decreases |s|
  {
    if |s| > 0 && IsSpace(s[|s| - 1]) then TrimEnd(s[..|s| - 1]) else s
  }

  /** `r` is the slice `s[i..i + |r|]` and everything of `s` around it is white space. */
  predicate IsTrimmedSlice(s: string, i: nat, r: string) {
    i + |r| <= |s| && r == s[i..i + |r|]
    && (forall k :: 0 <= k < i ==> IsSpace(s[k]))
    && (forall k :: i + |r| <= k < |s| ==> IsSpace(s[k]))
  }

  /** `trim`: the slice of `s` between its leading and its trailing white space. */
  function Trim(s: string): (r: string)
    ensures |r| == 0 || (!IsSpace(r[0]) && !IsSpace(r[|r| - 1]))
    ensures exists i: nat :: IsTrimmedSlice(s, i, r)
  {
    var t := TrimStart(s);
    var r := TrimEnd(t);
    var i := |s| - |t|;
    assert IsTrimmedSlice(s, i, r) by {
      assert t == s[i..];
    }
    r
  }

  /** Trimming the end adds no character. */
  lemma TrimEndExcludes(s: string, x: char)
    requires x !in s
    ensures x !in TrimEnd(s)
  {
    var e := TrimEnd(s);
    assert forall k :: 0 <= k < |e| ==> e[k] == s[k];
  }

  /** Trimming the start twice trims no more than once. */
  lemma TrimStartTwice(s: string)
    ensures TrimStart(TrimStart(s)) == TrimStart(s)
  {
  }

  /** A string without white space at either end is its own trim. */
  lemma TrimOfTrimmed(s: string)
    requires |s| == 0 || (!IsSpace(s[0]) && !IsSpace(s[|s| - 1]))
    ensures Trim(s) == s
  {
  }

  /** Trimming ignores white space added at either end. */
  lemma {:induction false} TrimPadded(pre: string, s: string, post: string)
    requires forall k :: 0 <= k < |pre| ==> IsSpace(pre[k])
    requires forall k :: 0 <= k < |post| ==> IsSpace(post[k])
    ensures Trim(pre + s + post) == Trim(s)
  {
    assert pre + s + post == pre + (s + post);
    TrimStartPadded(pre, s + post);
    TrimStartSuffix(s, post);
    var t := TrimStart(s);
    if TrimStart(s + post) == t + post {
      TrimEndPadded(t, post);
    } else {
      assert TrimEnd(t) == [];
    }
  }

  lemma {:induction false} TrimStartPadded(pre: string, s: string)
    requires forall k :: 0 <= k < |pre| ==> IsSpace(pre[k])
    ensures TrimStart(pre + s) == TrimStart(s)
    decreases |pre|
  {
    if |pre| > 0 {
      assert (pre + s)[0] == pre[0] && IsSpace(pre[0]);
      assert (pre + s)[1..] == pre[1..] + s;
      TrimStartPadded(pre[1..], s);
      assert TrimStart(pre + s) == TrimStart((pre + s)[1..]);
    } else {
      assert pre + s == s;
    }
  }

  /** Leading white space of `s + post` is that of `s`, followed by `post`'s when `s` is all white space. */
  lemma {:induction false} TrimStartSuffix(s: string, post: string)
    requires forall k :: 0 <= k < |post| ==> IsSpace(post[k])
    ensures TrimStart(s + post) == TrimStart(s) + post || (|TrimStart(s)| == 0 && TrimStart(s + post) == [])
    decreases |s|
  {
    if |s| == 0 {
      TrimStartPadded(post, []);
      assert post + [] == post;
    } else if IsSpace(s[0]) {
      assert (s + post)[1..] == s[1..] + post;
      TrimStartSuffix(s[1..], post);
    }
  }

  lemma {:induction false} TrimEndPadded(s: string, post: string)
    requires forall k :: 0 <= k < |post| ==> IsSpace(post[k])
    ensures TrimEnd(s + post) == TrimEnd(s)
    decreases |post|
  {
    if |post| > 0 {
      var n := |post| - 1;
      assert (s + post)[..|s + post| - 1] == s + post[..n];
      TrimEndPadded(s, post[..n]);
    } else {
      assert s + post == s;
    }
  }

  /** Leading white space stops at the first other character. */
  lemma {:induction false} TrimStartThrough(a: string, x: char, c: string)
    requires !IsSpace(x)
    ensures TrimStart(a + [x] + c) == TrimStart(a) + [x] + c
    decreases |a|
  {
    if |a| == 0 {
      assert a + [x] + c == [x] + c;
    } else if IsSpace(a[0]) {
      assert (a + [x] + c)[1..] == a[1..] + [x] + c;
      TrimStartThrough(a[1..], x, c);
    }
  }

  /** Trailing white space stops at the last other character. */
  lemma {:induction false} TrimEndThrough(a: string, x: char, c: string)
    requires !IsSpace(x)
    ensures TrimEnd(a + [x] + c) == a + [x] + TrimEnd(c)
    decreases |c|
  {
    if |c| == 0 {
      assert a + [x] + c == a + [x];
    } else if IsSpace(c[|c| - 1]) {
      var n := |c| - 1;
      assert (a + [x] + c)[..|a| + 1 + n] == a + [x] + c[..n];
      TrimEndThrough(a, x, c[..n]);
    }
  }

  /** The trim of a text around a character that is not white space. */
  lemma TrimThrough(a: string, x: char, c: string)
    requires !IsSpace(x)
    ensures Trim(a + [x] + c) == TrimStart(a) + [x] + TrimEnd(c)
  {
    TrimStartThrough(a, x, c);
    TrimEndThrough(TrimStart(a), x, c);
  }

  /** `s.map(f)`. */
  function Map<A, B>(f: A -> B, s: seq<A>): (r: seq<B>)
    ensures |r| == |s| && forall k :: 0 <= k < |s| ==> r[k] == f(s[k])
    decreases |s|
  {
    if |s| == 0 then [] else Map(f, s[..|s| - 1]) + [f(s[|s| - 1])]
  }

  /** `s.filter(f)`. */
  function Filter<T(!new)>(f: T -> bool, s: seq<T>): (r: seq<T>)
    ensures |r| <= |s|
    ensures forall x :: x in r <==> x in s && f(x)
  {
    if |s| == 0 then [] else (if f(s[0]) then [s[0]] else []) + Filter(f, s[1..])
  }

  /** A filter keeps an element exactly when the element satisfies it... */
  lemma FilterSingleton<T(!new)>(f: T -> bool, x: T)
    ensures Filter(f, [x]) == if f(x) then [x] else []
  {
    assert [x][1..] == [];
  }

  /** ... and works piece by piece, so it keeps the order and the repetitions of the
      elements it keeps. */
  lemma {:induction false} FilterConcat<T(!new)>(f: T -> bool, a: seq<T>, b: seq<T>)
    ensures Filter(f, a + b) == Filter(f, a) + Filter(f, b)
  {
    if |a| > 0 {
      assert (a + b)[1..] == a[1..] + b;
      FilterConcat(f, a[1..], b);
    } else {
      assert a + b == b;
    }
  }

  /** Two filters in a row are the filter by both conditions. */
  lemma {:induction false} FilterFilter<T(!new)>(f: T -> bool, g: T -> bool, both: T -> bool, s: seq<T>)
    requires forall x :: both(x) == (g(x) && f(x))
    ensures Filter(f, Filter(g, s)) == Filter(both, s)
  {
    if |s| > 0 {
      FilterFilter(f, g, both, s[1..]);
      FilterConcat(f, if g(s[0]) then [s[0]] else [], Filter(g, s[1..]));
      if g(s[0]) {
        FilterSingleton(f, s[0]);
      }
    }
  }

  /** Filters by conditions that agree on every element agree. */
  lemma {:induction false} FilterCongruent<T(!new)>(f: T -> bool, g: T -> bool, s: seq<T>)
    requires forall x :: f(x) == g(x)
    ensures Filter(f, s) == Filter(g, s)
  {
    if |s| > 0 {
      FilterCongruent(f, g, s[1..]);
    }
  }

  /** `parts.join(sep)`. */
  function Join(parts: seq<string>, sep: string): string {
    if |parts| == 0 then ""
    else if |parts| == 1 then parts[0]
    else parts[0] + sep + Join(parts[1..], sep)
  }

  /** A character in none of the parts and not in the separator is not in the join. */
  lemma {:induction false} JoinExcludes(parts: seq<string>, sep: string, c: char)
    requires c !in sep && forall k :: 0 <= k < |parts| ==> c !in parts[k]
    ensures c !in Join(parts, sep)
    decreases |parts|
  {
    if |parts| > 1 {
      assert forall k :: 0 <= k < |parts| - 1 ==> parts[1..][k] == parts[k + 1];
      JoinExcludes(parts[1..], sep, c);
    }
  }

  /** `.` stops at the first line terminator, so a one-line prefix is passed over whole. */
  lemma {:induction false} UpToLineTerminatorAppend(a: string, c: string)
    requires forall k :: 0 <= k < |a| ==> !IsLineTerminator(a[k])
    ensures UpToLineTerminator(a + c) == a + UpToLineTerminator(c)
    decreases |a|
  {
    if |a| == 0 {
      assert a + c == c;
    } else {
      assert (a + c)[1..] == a[1..] + c;
      UpToLineTerminatorAppend(a[1..], c);
    }
  }

  /** `s.split(sep)` for a one-character separator: at least one part, no part holds
      the separator, and joining the parts back with it restores `s`. */
  function Split(s: string, sep: char): (parts: seq<string>)
    ensures |parts| >= 1
    ensures forall k :: 0 <= k < |parts| ==> sep !in parts[k]
    ensures Join(parts, [sep]) == s
    decreases |s|
  {
    if |s| == 0 then [""]
    else if s[0] == sep then [""] + Split(s[1..], sep)
    else
      var rest := Split(s[1..], sep);
      JoinConsHead([s[0]], rest[0], rest[1..], [sep]);
      assert [rest[0]] + rest[1..] == rest;
      [[s[0]] + rest[0]] + rest[1..]
  }

  lemma JoinConsHead(x: string, y: string, rest: seq<string>, sep: string)
    ensures Join([x + y] + rest, sep) == x + Join([y] + rest, sep)
  {
    if |rest| > 0 {
      assert ([x + y] + rest)[1..] == rest;
      assert ([y] + rest)[1..] == rest;
    }
  }

  lemma {:induction false} SplitWithoutSeparator(a: string, sep: char)
    requires sep !in a
    ensures Split(a, sep) == [a]
    decreases |a|
  {
    if |a| > 0 {
      SplitWithoutSeparator(a[1..], sep);
      assert [a[0]] + a[1..] == a;
    }
  }

  lemma {:induction false} SplitAtFirstSeparator(a: string, sep: char, rest: string)
    requires sep !in a
    ensures Split(a + [sep] + rest, sep) == [a] + Split(rest, sep)
    decreases |a|
  {
    var s := a + [sep] + rest;
    if |a| == 0 {
      assert s[1..] == rest;
    } else {
      assert s[1..] == a[1..] + [sep] + rest;
      SplitAtFirstSeparator(a[1..], sep, rest);
      assert [a[0]] + a[1..] == a;
    }
  }

  /** Splitting undoes joining, when no part holds the separator. */
  lemma {:induction false} SplitOfJoin(parts: seq<string>, sep: char)
    requires |parts| >= 1
    requires forall k :: 0 <= k < |parts| ==> sep !in parts[k]
    ensures Split(Join(parts, [sep]), sep) == parts
    decreases |parts|
  {
    if |parts| == 1 {
      SplitWithoutSeparator(parts[0], sep);
    } else {
      SplitOfJoin(parts[1..], sep);
      assert parts[0] + [sep] + Join(parts[1..], [sep]) == Join(parts, [sep]);
      SplitAtFirstSeparator(parts[0], sep, Join(parts[1..], [sep]));
      assert [parts[0]] + parts[1..] == parts;
    }
  }

  /** `s.replaceAll(pat, rep)` with a literal pattern: occurrences of `pat` are found
      left to right without overlapping and each is replaced by `rep`. Every character
      of the result comes from `s` or from `rep`; a one-character pattern that `rep`
      does not contain is gone from the result; a pattern whose first character does not
      occur in `s` leaves `s` unchanged. */
  function ReplaceAll(s: string, pat: string, rep: string): (r: string)
    requires |pat| > 0
    ensures forall c :: c in r ==> c in s || c in rep
    ensures |pat| == 1 && pat[0] !in rep ==> pat[0] !in r
    ensures pat[0] !in s ==> r == s
    decreases |s|
  {
    if |s| < |pat| then s
    else if s[..|pat|] == pat then
      assert pat[0] == s[0];
      rep + ReplaceAll(s[|pat|..], pat, rep)
    else
      var r := [s[0]] + ReplaceAll(s[1..], pat, rep);
      assert pat[0] !in s ==> s == [s[0]] + s[1..];
      r
  }

  /** `pat` occurs in `s` at `k`. */
  predicate OccursAt(s: string, pat: string, k: nat) {
    k + |pat| <= |s| && s[k..k + |pat|] == pat
  }

  /** A pattern that occurs nowhere leaves the text unchanged. */
  lemma {:induction false} ReplaceAllAbsent(s: string, pat: string, rep: string)
    requires |pat| > 0
    requires forall k: nat :: !OccursAt(s, pat, k)
    ensures ReplaceAll(s, pat, rep) == s
    decreases |s|
  {
    if |s| >= |pat| {
      assert !OccursAt(s, pat, 0);
      assert s[0..|pat|] == s[..|pat|];
      forall k: nat ensures !OccursAt(s[1..], pat, k) {
        assert !OccursAt(s, pat, k + 1);
        if k + |pat| <= |s| - 1 {
          assert s[1..][k..k + |pat|] == s[k + 1..k + 1 + |pat|];
        }
      }
      ReplaceAllAbsent(s[1..], pat, rep);
      assert s == [s[0]] + s[1..];
    }
  }

  /** The leftmost occurrence of the pattern is replaced, and the scan goes on after
      it; with `ReplaceAllAbsent` this determines `replaceAll` for every pattern. */
  lemma ReplaceAllLeftmost(s: string, pat: string, rep: string, k: nat)
    requires |pat| > 0 && OccursAt(s, pat, k)
    requires forall j: nat :: j < k ==> !OccursAt(s, pat, j)
    ensures ReplaceAll(s, pat, rep) == s[..k] + rep + ReplaceAll(s[k + |pat|..], pat, rep)
  {
    ReplaceAllFrom(s, pat, rep, 0, k);
    assert s[0..] == s && s[0..k] == s[..k];
  }

  /** From any `i` up to the leftmost occurrence at `k`, the scan copies `s[i..k]`. */
  lemma {:induction false} ReplaceAllFrom(s: string, pat: string, rep: string, i: nat, k: nat)
    requires |pat| > 0 && i <= k && OccursAt(s, pat, k)
    requires forall j: nat :: i <= j < k ==> !OccursAt(s, pat, j)
    ensures ReplaceAll(s[i..], pat, rep) == s[i..k] + rep + ReplaceAll(s[k + |pat|..], pat, rep)
    decreases k - i
  {
    if i == k {
      ReplaceAllOccurrenceAt(s, pat, rep, k);
    } else {
      ReplaceAllFrom(s, pat, rep, i + 1, k);
      ReplaceAllSkipAt(s, pat, rep, i, k);
    }
  }

  /** An occurrence at `k` is replaced. */
  lemma ReplaceAllOccurrenceAt(s: string, pat: string, rep: string, k: nat)
    requires |pat| > 0 && OccursAt(s, pat, k)
    ensures ReplaceAll(s[k..], pat, rep) == s[k..k] + rep + ReplaceAll(s[k + |pat|..], pat, rep)
  {
    var t := s[k..];
    assert t[..|pat|] == s[k..k + |pat|];
    assert t[|pat|..] == s[k + |pat|..];
    assert s[k..k] + rep == rep;
  }

  /** Without an occurrence at `i` the character there is kept. */
  lemma ReplaceAllSkipAt(s: string, pat: string, rep: string, i: nat, k: nat)
    requires |pat| > 0 && i < k && k + |pat| <= |s| && !OccursAt(s, pat, i)
    requires ReplaceAll(s[i + 1..], pat, rep) == s[i + 1..k] + rep + ReplaceAll(s[k + |pat|..], pat, rep)
    ensures ReplaceAll(s[i..], pat, rep) == s[i..k] + rep + ReplaceAll(s[k + |pat|..], pat, rep)
  {
    ReplaceAllKeepsAt(s, pat, rep, i);
    assert [s[i]] + s[i + 1..k] == s[i..k];
    ConsAssociates(s[i], s[i + 1..k], rep, ReplaceAll(s[k + |pat|..], pat, rep));
  }

  lemma ReplaceAllKeepsAt(s: string, pat: string, rep: string, i: nat)
    requires |pat| > 0 && i + |pat| < |s| && !OccursAt(s, pat, i)
    ensures ReplaceAll(s[i..], pat, rep) == [s[i]] + ReplaceAll(s[i + 1..], pat, rep)
  {
    var t := s[i..];
    assert t[..|pat|] == s[i..i + |pat|];
    assert t[1..] == s[i + 1..];
  }

  lemma ConsAssociates(c: char, a: string, b: string, z: string)
    ensures [c] + (a + b + z) == [c] + a + b + z
  {
  }

  /** The reference meaning of a one-character `replaceAll`: split on the character,
      join with the replacement. */
  lemma {:induction false} ReplaceAllIsSplitJoin(s: string, c: char, rep: string)
    ensures ReplaceAll(s, [c], rep) == Join(Split(s, c), rep)
    decreases |s|
  {
    if |s| > 0 {
      ReplaceAllIsSplitJoin(s[1..], c, rep);
      var rest := Split(s[1..], c);
      if s[0] == c {
        ReplaceAllAtSeparator(s, c, rep);
        JoinEmptyHead(rest, rep);
      } else {
        ReplaceAllAtOther(s, c, rep);
        JoinConsHead([s[0]], rest[0], rest[1..], rep);
        assert [rest[0]] + rest[1..] == rest;
      }
    }
  }

  lemma ReplaceAllAtSeparator(s: string, c: char, rep: string)
    requires |s| > 0 && s[0] == c
    ensures ReplaceAll(s, [c], rep) == rep + ReplaceAll(s[1..], [c], rep)
    ensures Split(s, c) == [""] + Split(s[1..], c)
  {
    assert s[..1] == [c];
  }

  lemma ReplaceAllAtOther(s: string, c: char, rep: string)
    requires |s| > 0 && s[0] != c
    ensures ReplaceAll(s, [c], rep) == [s[0]] + ReplaceAll(s[1..], [c], rep)
    ensures var rest := Split(s[1..], c); Split(s, c) == [[s[0]] + rest[0]] + rest[1..]
  {
    assert s[..1] != [c];
  }

  lemma JoinEmptyHead(rest: seq<string>, sep: string)
    requires |rest| >= 1
    ensures Join([""] + rest, sep) == sep + Join(rest, sep)
  {
    assert ([""] + rest)[1..] == rest;
  }

  /** `c.repeat(n)`. */
  function Repeat(c: char, n: nat): (r: string)
    ensures |r| == n && forall k :: 0 <= k < n ==> r[k] == c
  {
    seq(n, _ => c)
  }

  /** Number of occurrences of `c` in `s`. */
  function CountChar(s: string, c: char): (n: nat)
    ensures n <= |s|
    ensures n == 0 <==> c !in s
    decreases |s|
  {
    if |s| == 0 then 0
    else
      assert s == [s[0]] + s[1..];
      (if s[0] == c then 1 else 0) + CountChar(s[1..], c)
  }

  lemma {:induction false} CountCharConcat(a: string, b: string, c: char)
    ensures CountChar(a + b, c) == CountChar(a, c) + CountChar(b, c)
    decreases |a|
  {
    if |a| > 0 {
      assert (a + b)[1..] == a[1..] + b;
      CountCharConcat(a[1..], b, c);
    } else {
      assert a + b == b;
    }
  }

  /** `s.lastIndexOf(c)`, with `None` for -1. */
  function LastIndexOf(s: string, c: char): (r: Option<nat>)
    ensures r.None? <==> c !in s
    ensures r.Some? ==> r.value < |s| && s[r.value] == c && c !in s[r.value + 1..]
    decreases |s|
  {
    if |s| == 0 then None
    else if s[|s| - 1] == c then Some(|s| - 1)
    else
      assert s == s[..|s| - 1] + [s[|s| - 1]];
      var r := LastIndexOf(s[..|s| - 1], c);
      assert r.Some? ==> s[r.value + 1..] == s[..|s| - 1][r.value + 1..] + [s[|s| - 1]];
      r
  }

  /** What `.*` matches at the start of `s`: the longest prefix without a line terminator. */
  function UpToLineTerminator(s: string): (r: string)
    ensures |r| <= |s| && r == s[..|r|]
    ensures forall k :: 0 <= k < |r| ==> !IsLineTerminator(r[k])
    ensures |r| == |s| || IsLineTerminator(s[|r|])
    decreases |s|
  {
    if |s| == 0 || IsLineTerminator(s[0]) then ""
    else [s[0]] + UpToLineTerminator(s[1..])
  }
}
