/** The JavaScript string operations the plugin uses, on `seq<char>`:
    `startsWith`/`endsWith`, `indexOf`/`lastIndexOf`, `replace` with a string
    pattern, `slice` with negative indices, `split`/`join` on one separator
    character, `trim`, and `toLowerCase` restricted to ASCII. */
module Strings {

  /** `pat` occurs in `s` starting at index `i`. */
  predicate OccursAt(s: string, pat: string, i: int) {
    0 <= i && i + |pat| <= |s| && s[i..i + |pat|] == pat
  }

  predicate StartsWith(s: string, prefix: string) {
    |prefix| <= |s| && s[..|prefix|] == prefix
  }

  predicate EndsWith(s: string, suffix: string) {
    |suffix| <= |s| && s[|s| - |suffix|..] == suffix
  }

  /** Two prefixes of one string: the shorter is a prefix of the longer. */
  lemma PrefixesNest(s: string, x: string, y: string)
    requires StartsWith(s, x) && StartsWith(s, y) && |x| <= |y|
    ensures StartsWith(y, x)
  {
    assert y[..|x|] == s[..|y|][..|x|] == s[..|x|];
  }

  // ---------------------------------------------------------------------
  // indexOf / lastIndexOf / replace

  /** First occurrence of `pat` at or after `from`, or -1. */
  function IndexFrom(s: string, pat: string, from: nat): (r: int)
    ensures r == -1 || (from <= r && OccursAt(s, pat, r))
    ensures forall i {:trigger OccursAt(s, pat, i)} ::
              from <= i && (r == -1 || i < r) ==> !OccursAt(s, pat, i)
    decreases |s| + 1 - from
  {
    if from + |pat| > |s| then -1
    else if s[from..from + |pat|] == pat then from
    else IndexFrom(s, pat, from + 1)
  }

  /** `String.prototype.indexOf`: the first occurrence, -1 when there is none. */
  function IndexOf(s: string, pat: string): (r: int)
    ensures r == -1 || OccursAt(s, pat, r)
    ensures forall i {:trigger OccursAt(s, pat, i)} ::
              (r == -1 || i < r) ==> !OccursAt(s, pat, i)
  {
    IndexFrom(s, pat, 0)
  }

  /** Last occurrence of `pat` at an index `<= upto`, or -1. */
  function LastIndexUpTo(s: string, pat: string, upto: int): (r: int)
    ensures r == -1 || (r <= upto && OccursAt(s, pat, r))
    ensures forall i {:trigger OccursAt(s, pat, i)} ::
              r < i <= upto ==> !OccursAt(s, pat, i)
    decreases upto + 1
  {
    if upto < 0 then -1
    else if OccursAt(s, pat, upto) then upto
    else LastIndexUpTo(s, pat, upto - 1)
  }

  /** `String.prototype.lastIndexOf`: the last occurrence, -1 when there is none. */
  function LastIndexOf(s: string, pat: string): (r: int)
    ensures r == -1 || OccursAt(s, pat, r)
    ensures forall i {:trigger OccursAt(s, pat, i)} :: r < i ==> !OccursAt(s, pat, i)
  {
    LastIndexUpTo(s, pat, |s| - |pat|)
  }

  /** `s.replace(pat, rep)` with a string pattern: only the first occurrence is
      replaced. (`rep` is assumed free of `$` replacement patterns.) */
  function ReplaceFirst(s: string, pat: string, rep: string): (r: string)
    ensures (forall i {:trigger OccursAt(s, pat, i)} :: !OccursAt(s, pat, i)) ==> r == s
    ensures forall i {:trigger OccursAt(s, pat, i)} ::
              OccursAt(s, pat, i) && (forall j {:trigger OccursAt(s, pat, j)} :: j < i ==> !OccursAt(s, pat, j))
              ==> r == s[..i] + rep + s[i + |pat|..]
  {
    var i := IndexOf(s, pat);
    if i < 0 then s else s[..i] + rep + s[i + |pat|..]
  }

  // ---------------------------------------------------------------------
  // slice

  /** How `slice` resolves a possibly negative index against a length. */
  function RelativeIndex(len: nat, k: int): (r: nat)
    ensures r <= len
  {
    if k < 0 then (if len + k < 0 then 0 else len + k)
    else if k > len then len else k
  }

  /** `s.slice(0, end)`: a prefix of `s`; a negative `end` counts back from
      the end of `s`, and an index past either end is clamped. */
  function SliceTo(s: string, end: int): (r: string)
    ensures StartsWith(s, r)
    ensures 0 <= end <= |s| ==> |r| == end
    ensures end > |s| ==> r == s
    ensures end < 0 && |s| + end >= 0 ==> |r| == |s| + end
    ensures |s| + end < 0 ==> r == ""
  {
    s[..RelativeIndex(|s|, end)]
  }

  /** `s.slice(start)`: a suffix of `s`, with the same index resolution. */
  function SliceFrom(s: string, start: int): (r: string)
    ensures EndsWith(s, r)
    ensures 0 <= start <= |s| ==> |r| == |s| - start
    ensures start > |s| ==> r == ""
    ensures start < 0 && |s| + start >= 0 ==> |r| == -start
    ensures |s| + start < 0 ==> r == s
  {
    s[RelativeIndex(|s|, start)..]
  }

  /** Slicing at one index on both sides cuts `s` into two halves that
      rebuild it. */
  lemma SliceSplits(s: string, k: int)
    ensures SliceTo(s, k) + SliceFrom(s, k) == s
  {
    var q := RelativeIndex(|s|, k);
    assert s[..q] + s[q..] == s;
  }

  // ---------------------------------------------------------------------
  // split / join on one separator character

  /** `parts.join(sep)`. */
  function Join(parts: seq<string>, sep: string): string
    decreases |parts|
  {
    if |parts| == 0 then ""
    else if |parts| == 1 then parts[0]
    else parts[0] + sep + Join(parts[1..], sep)
  }

  /** `s.split(sep)` for a one-character separator: the pieces between
      separators, separator-free, which join back to `s`. */
  function Split(s: string, sep: char): (parts: seq<string>)
    ensures |parts| >= 1
    ensures forall k :: 0 <= k < |parts| ==> sep !in parts[k]
    ensures Join(parts, [sep]) == s
    decreases |s|
  {
    if |s| == 0 then [""]
    else
      var rest := Split(s[1..], sep);
      if s[0] == sep then
        assert [sep] + Join(rest, [sep]) == s;
        [""] + rest
      else
        var parts := [[s[0]] + rest[0]] + rest[1..];
        assert Join(parts, [sep]) == [s[0]] + Join(rest, [sep]) by {
          if |rest| > 1 {
            assert parts[1..] == rest[1..];
          }
        }
        assert [s[0]] + s[1..] == s;
        parts
  }

  /** Number of occurrences of `c` in `s`. */
  function CountChar(s: string, c: char): nat
    decreases |s|
  {
    if |s| == 0 then 0 else (if s[0] == c then 1 else 0) + CountChar(s[1..], c)
  }

  lemma {:induction false} CountCharAppend(a: string, b: string, c: char)
    ensures CountChar(a + b, c) == CountChar(a, c) + CountChar(b, c)
    decreases |a|
  {
    if |a| == 0 {
      assert a + b == b;
    } else {
      assert (a + b)[1..] == a[1..] + b;
      CountCharAppend(a[1..], b, c);
    }
  }

  lemma {:induction false} CountCharAbsent(s: string, c: char)
    requires c !in s
    ensures CountChar(s, c) == 0
    decreases |s|
  {
    if |s| > 0 {
      assert s[0] != c;
      assert forall x :: x in s[1..] ==> x in s;
      CountCharAbsent(s[1..], c);
    }
  }

  /** Joining separator-free pieces puts exactly one separator between
      neighbours. */
  lemma {:induction false} CountCharJoin(parts: seq<string>, c: char)
    requires |parts| >= 1
    requires forall k :: 0 <= k < |parts| ==> c !in parts[k]
    ensures CountChar(Join(parts, [c]), c) == |parts| - 1
    decreases |parts|
  {
    if |parts| == 1 {
      CountCharAbsent(parts[0], c);
    } else {
      CountCharJoin(parts[1..], c);
      CountCharAbsent(parts[0], c);
      CountCharAppend(parts[0], [c], c);
      CountCharAppend(parts[0] + [c], Join(parts[1..], [c]), c);
      assert CountChar([c], c) == 1;
    }
  }

  /** `join` puts the pieces in order with `sep` between neighbours: the
      result opens with the first piece and its separator, ends with the last
      piece, and no pieces give the empty string. */
  lemma {:induction false} JoinEnds(parts: seq<string>, sep: string)
    ensures |parts| == 0 ==> Join(parts, sep) == ""
    ensures |parts| >= 1 ==> StartsWith(Join(parts, sep), parts[0])
                             && EndsWith(Join(parts, sep), parts[|parts| - 1])
    ensures |parts| >= 2 ==> StartsWith(Join(parts, sep), parts[0] + sep)
    decreases |parts|
  {
    if |parts| >= 2 {
      var rest := Join(parts[1..], sep);
      JoinEnds(parts[1..], sep);
      assert Join(parts, sep) == parts[0] + sep + rest;
      assert Join(parts, sep)[..|parts[0] + sep|] == parts[0] + sep;
      assert EndsWith(rest, parts[|parts| - 1]);
      assert Join(parts, sep)[|Join(parts, sep)| - |parts[|parts| - 1]|..]
             == rest[|rest| - |parts[|parts| - 1]|..];
    }
  }

  /** Splitting into the concatenation of the joins of two non-empty groups. */
  lemma {:induction false} JoinAppend(a: seq<string>, b: seq<string>, sep: string)
    requires |a| >= 1 && |b| >= 1
    ensures Join(a + b, sep) == Join(a, sep) + sep + Join(b, sep)
    decreases |a|
  {
    if |a| == 1 {
      assert (a + b)[1..] == b;
    } else {
      assert (a + b)[1..] == a[1..] + b;
      JoinAppend(a[1..], b, sep);
    }
  }

  /** Two separator-free pieces followed by a separator: the first
      separator fixes where the pieces end. */
  lemma FirstSeparator(p: string, r: string, q: string, t: string, c: char)
    requires c !in p && c !in q
    requires p + [c] + r == q + [c] + t
    ensures p == q && r == t
  {
    var s := p + [c] + r;
    forall i | 0 <= i < |q| ensures s[i] != c {
      assert s[i] == q[i];
    }
    forall i | 0 <= i < |p| ensures s[i] != c {
      assert s[i] == p[i];
    }
    assert s[|p|] == c;
    assert s[|q|] == (q + [c] + t)[|q|] == c;
    assert p == s[..|p|] == q;
    assert r == s[|p| + 1..] == t;
  }

  /** Separator-free pieces are determined by their join. */
  lemma {:induction false} JoinInjective(a: seq<string>, b: seq<string>, c: char)
    requires |a| >= 1 && |b| >= 1
    requires forall k :: 0 <= k < |a| ==> c !in a[k]
    requires forall k :: 0 <= k < |b| ==> c !in b[k]
    requires Join(a, [c]) == Join(b, [c])
    ensures a == b
    decreases |a|
  {
    CountCharJoin(a, c);
    CountCharJoin(b, c);
    if |a| > 1 {
      FirstSeparator(a[0], Join(a[1..], [c]), b[0], Join(b[1..], [c]), c);
      JoinInjective(a[1..], b[1..], c);
      assert a == [a[0]] + a[1..] && b == [b[0]] + b[1..];
    }
  }

  /** `join` then `split` on the same character gives the pieces back,
      provided none of them contains it. */
  lemma SplitJoin(parts: seq<string>, c: char)
    requires |parts| >= 1
    requires forall k :: 0 <= k < |parts| ==> c !in parts[k]
    ensures Split(Join(parts, [c]), c) == parts
  {
    JoinInjective(Split(Join(parts, [c]), c), parts, c);
  }

  // ---------------------------------------------------------------------
  // trim

  /** ECMAScript WhiteSpace and LineTerminator code points, which `trim` removes. */
  predicate IsJsWhitespace(c: char) {
    var n := c as int;
    n == 0x09 || n == 0x0A || n == 0x0B || n == 0x0C || n == 0x0D || n == 0x20
    || n == 0xA0 || n == 0x1680 || (0x2000 <= n <= 0x200A) || n == 0x2028
    || n == 0x2029 || n == 0x202F || n == 0x205F || n == 0x3000 || n == 0xFEFF
  }

  function TrimStart(s: string): (r: string)
    ensures |r| <= |s| && r == s[|s| - |r|..]
    ensures forall i :: 0 <= i < |s| - |r| ==> IsJsWhitespace(s[i])
    ensures r == [] || !IsJsWhitespace(r[0])
    decreases |s|
  {
    if |s| > 0 && IsJsWhitespace(s[0]) then TrimStart(s[1..]) else s
  }

  function TrimEnd(s: string): (r: string)
    ensures |r| <= |s| && r == s[..|r|]
    ensures forall i :: |r| <= i < |s| ==> IsJsWhitespace(s[i])
    ensures r == [] || !IsJsWhitespace(r[|r| - 1])
    decreases |s|
  {
    if |s| > 0 && IsJsWhitespace(s[|s| - 1]) then TrimEnd(s[..|s| - 1]) else s
  }

  /** `String.prototype.trim`: the result is a contiguous piece of `s` with no
      whitespace at either end, and it is empty exactly when `s` is all
      whitespace. */
  function Trim(s: string): (r: string)
    ensures r == "" <==> forall i :: 0 <= i < |s| ==> IsJsWhitespace(s[i])
    ensures r != "" ==> !IsJsWhitespace(r[0]) && !IsJsWhitespace(r[|r| - 1])
    ensures exists a, b :: WhitespaceCut(s, r, a, b)
  {
    TrimFacts(s);
    TrimSlice(s);
    TrimEnd(TrimStart(s))
  }

  /** `r` is the piece `s[a..b]`, and everything cut off on either side is
      whitespace. */
  predicate WhitespaceCut(s: string, r: string, a: int, b: int) {
    && 0 <= a <= b <= |s|
    && r == s[a..b]
    && (forall i :: 0 <= i < a ==> IsJsWhitespace(s[i]))
    && (forall i :: b <= i < |s| ==> IsJsWhitespace(s[i]))
  }

  /** What `trim` keeps is one contiguous piece of `s`, and all it drops is
      whitespace. */
  lemma TrimSlice(s: string)
    ensures exists a, b :: WhitespaceCut(s, TrimEnd(TrimStart(s)), a, b)
  {
    var t := TrimStart(s);
    var r := TrimEnd(t);
    var a := |s| - |t|;
    var b := a + |r|;
    assert t == s[a..];
    assert r == t[..|r|];
    assert r == s[a..b] by {
      forall i | 0 <= i < |r| ensures r[i] == s[a + i] {
        assert r[i] == t[i];
      }
    }
    forall i | b <= i < |s| ensures IsJsWhitespace(s[i]) {
      assert s[i] == t[i - a];
    }
    assert WhitespaceCut(s, r, a, b);
  }

  lemma TrimFacts(s: string)
    ensures TrimEnd(TrimStart(s)) == "" <==> forall i :: 0 <= i < |s| ==> IsJsWhitespace(s[i])
    ensures TrimEnd(TrimStart(s)) != "" ==>
              !IsJsWhitespace(TrimEnd(TrimStart(s))[0])
              && !IsJsWhitespace(TrimEnd(TrimStart(s))[|TrimEnd(TrimStart(s))| - 1])
  {
    var t := TrimStart(s);
    var r := TrimEnd(t);
    if t == "" {
      assert forall i :: 0 <= i < |s| ==> IsJsWhitespace(s[i]);
    }
    if r != "" {
      assert r[0] == t[0];
    }
  }

  // ---------------------------------------------------------------------
  // toLowerCase (ASCII)

  function LowerChar(c: char): char {
    if 'A' <= c <= 'Z' then (c as int + 32) as char else c
  }

  /** `toLowerCase` on the ASCII letters; other characters are kept. */
  function ToLower(s: string): (r: string)
    ensures |r| == |s|
    ensures forall i :: 0 <= i < |s| ==> r[i] == LowerChar(s[i])
  {
    seq(|s|, i requires 0 <= i < |s| => LowerChar(s[i]))
  }

  lemma ToLowerSuffix(s: string, k: nat)
    requires k <= |s|
    ensures ToLower(s)[k..] == ToLower(s[k..])
  {
  }
}
