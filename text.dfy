/**
 * The string primitives the Python code relies on: str.isspace, strip,
 * lstrip/rstrip with a character set, startswith/endswith, split on a
 * separator, split() on white space, " ".join and ASCII lower().
 * Strings are sequences of code points.
 */
module Text {

  /** str.isspace() for one code point; `\s`, strip() and split() use the same set. */
  predicate IsSpace(c: char)
  {
    var n := c as int;
    (9 <= n <= 13) || (28 <= n <= 32) || n == 0x85 || n == 0xA0 || n == 0x1680
    || (0x2000 <= n <= 0x200A) || n == 0x2028 || n == 0x2029 || n == 0x202F
    || n == 0x205F || n == 0x3000
  }

  /** The set "\r\n" that rstrip("\r\n") and lstrip("\r\n") remove. */
  predicate IsLineBreak(c: char) { c == '\r' || c == '\n' }

  /** The set "\n" that lstrip("\n") and rstrip("\n") remove. */
  predicate IsNewline(c: char) { c == '\n' }

  /** s.lstrip(chars): the longest suffix of s not starting with a dropped character. */
  function LStrip(s: string, drop: char -> bool): (r: string)
    ensures |r| <= |s|
    ensures r == [] || !drop(r[0])
    ensures forall i :: 0 <= i < |s| - |r| ==> drop(s[i])
    decreases |s|
  {
    if s != [] && drop(s[0]) then LStrip(s[1..], drop) else s
  }

  /** What lstrip leaves is the rest of s after the dropped characters. */
  lemma {:induction false} LStripSuffix(s: string, drop: char -> bool)
    ensures LStrip(s, drop) == s[|s| - |LStrip(s, drop)|..]
    decreases |s|
  {
    if s != [] && drop(s[0]) {
      LStripSuffix(s[1..], drop);
    }
  }

  /** lstrip only works on the front: a tail that starts with a kept character survives whole. */
  lemma {:induction false} LStripAppend(x: string, tail: string, drop: char -> bool)
    requires tail != [] && !drop(tail[0])
    ensures LStrip(x + tail, drop) == LStrip(x, drop) + tail
    decreases |x|
  {
    if x == [] {
      assert x + tail == tail;
    } else {
      assert (x + tail)[1..] == x[1..] + tail;
      if drop(x[0]) {
        LStripAppend(x[1..], tail, drop);
      }
    }
  }

  /** strip() of x + tail, when the tail starts and ends with non-space characters, only trims x's front. */
  lemma StripAppend(x: string, tail: string)
    requires tail != [] && !IsSpace(tail[0]) && !IsSpace(tail[|tail| - 1])
    ensures Strip(x + tail) == LStrip(x, IsSpace) + tail
  {
    LStripAppend(x, tail, IsSpace);
    var r := LStrip(x, IsSpace) + tail;
    assert r[|r| - 1] == tail[|tail| - 1];
  }

  /** A slice of a concatenation that falls inside its middle part. */
  lemma SliceOfConcat<T>(l: seq<T>, w: seq<T>, t: seq<T>, a: nat, b: nat)
    requires a <= b <= |w|
    ensures (l + w + t)[|l| + a..|l| + b] == w[a..b]
  {
    assert forall k :: 0 <= k < b - a ==> (l + w + t)[|l| + a..|l| + b][k] == w[a..b][k];
  }

  /** A slice of a slice is a slice. */
  lemma SliceOfSlice<T>(s: seq<T>, lo: nat, hi: nat, a: nat, b: nat)
    requires lo <= hi <= |s| && a <= b <= hi - lo
    ensures s[lo..hi][a..b] == s[lo + a..lo + b]
  {
    forall k | 0 <= k < b - a
      ensures s[lo..hi][a..b][k] == s[lo + a..lo + b][k]
    {
      assert s[lo..hi][a..b][k] == s[lo..hi][a + k];
    }
  }

  /** A slice equal to x + y has x as its first part and y as its second. */
  lemma Halves<T>(s: seq<T>, a: nat, x: seq<T>, y: seq<T>)
    requires a + |x| + |y| <= |s| && s[a..a + |x| + |y|] == x + y
    ensures s[a..a + |x|] == x && s[a + |x|..a + |x| + |y|] == y
  {
    SliceSplit(s, a, a + |x|, a + |x| + |y|);
    assert (x + y)[..|x|] == x;
    assert (x + y)[|x|..] == y;
  }

  lemma LastOfAppend<T>(x: seq<T>, y: seq<T>)
    requires y != []
    ensures (x + y)[|x + y| - 1..] == y[|y| - 1..]
  {
    assert (x + y)[|x + y| - 1] == y[|y| - 1];
  }

  lemma FirstOfAppend<T>(x: seq<T>, y: seq<T>)
    requires x != []
    ensures (x + y)[..1] == x[..1]
  {
    assert (x + y)[0] == x[0];
  }

  lemma Append5<T>(a: seq<T>, b: seq<T>, c: seq<T>, d: seq<T>, e: seq<T>)
    ensures (a + b + c) + d + e == a + b + (c + d + e)
  {
  }

    /** A slice is the slice up to a middle index followed by the slice from it. */
  lemma SliceSplit<T>(s: seq<T>, a: nat, b: nat, c: nat)
    requires a <= b <= c <= |s|
    ensures s[a..c] == s[a..b] + s[b..c]
  {
  }

  /** A string ends with what was appended to it. */
  lemma EndsWithAppend(x: string, y: string)
    ensures EndsWith(x + y, y)
  {
    assert (x + y)[|x + y| - |y|..] == y;
  }

  /** A prefix one longer is the shorter prefix and the next element. */
  lemma PrefixSnoc<T>(s: seq<T>, i: nat)
    requires i < |s|
    ensures s[..i + 1] == s[..i] + [s[i]]
  {
  }

  /** A suffix is the slice up to any later index followed by the rest. */
  lemma SuffixSplit<T>(s: seq<T>, i: nat, j: nat)
    requires i <= j <= |s|
    ensures s[i..] == s[i..j] + s[j..]
  {
  }

  /** Cutting a sequence at pos and putting nothing in between gives it back. */
  lemma Rejoin<T>(s: seq<T>, pos: nat, mid: seq<T>)
    requires pos <= |s| && mid == []
    ensures s[..pos] + mid + s[pos..] == s
  {
    assert s[..pos] + s[pos..] == s;
  }

  lemma AppendAssoc<T>(a: seq<T>, x: T, b: seq<T>)
    ensures a + ([x] + b) == (a + [x]) + b
  {
  }

  /** s.rstrip(chars): the longest prefix of s not ending with a dropped character. */
  function RStrip(s: string, drop: char -> bool): (r: string)
    ensures |r| <= |s|
    ensures r == [] || !drop(r[|r| - 1])
    ensures forall i :: |r| <= i < |s| ==> drop(s[i])
    decreases |s|
  {
    if s != [] && drop(s[|s| - 1]) then RStrip(s[..|s| - 1], drop) else s
  }

  /** What rstrip leaves is the start of s before the dropped characters. */
  lemma {:induction false} RStripPrefix(s: string, drop: char -> bool)
    ensures RStrip(s, drop) == s[..|RStrip(s, drop)|]
    decreases |s|
  {
    if s != [] && drop(s[|s| - 1]) {
      RStripPrefix(s[..|s| - 1], drop);
    }
  }

  /** Stripping a string made only of dropped characters leaves nothing. */
  lemma RStripAll(s: string, drop: char -> bool)
    requires forall i :: 0 <= i < |s| ==> drop(s[i])
    ensures RStrip(s, drop) == []
  {
    RStripPrefix(s, drop);
  }

  /** Dropped characters at the end do not change what rstrip leaves. */
  lemma {:induction false} RStripDroppedTail(w: string, t: string, drop: char -> bool)
    requires forall k :: 0 <= k < |t| ==> drop(t[k])
    ensures RStrip(w + t, drop) == RStrip(w, drop)
    decreases |t|
  {
    if t != [] {
      var u := t[..|t| - 1];
      assert (w + t)[..|w + t| - 1] == w + u;
      assert (w + t)[|w + t| - 1] == t[|t| - 1];
      assert forall k :: 0 <= k < |u| ==> u[k] == t[k];
      RStripDroppedTail(w, u, drop);
    } else {
      assert w + t == w;
    }
  }

  /** A dropped tail survives lstrip of a string that is not all dropped. */
  lemma {:induction false} LStripDroppedTail(x: string, t: string, drop: char -> bool)
    requires LStrip(x, drop) != []
    ensures LStrip(x + t, drop) == LStrip(x, drop) + t
    decreases |x|
  {
    assert (x + t)[0] == x[0];
    if drop(x[0]) {
      assert (x + t)[1..] == x[1..] + t;
      LStripDroppedTail(x[1..], t, drop);
    }
  }

  /** strip() ignores white space appended to a string. */
  lemma StripSpaceTail(x: string, t: string)
    requires forall k :: 0 <= k < |t| ==> IsSpace(t[k])
    ensures Strip(x + t) == Strip(x)
  {
    if LStrip(x, IsSpace) == [] {
      assert forall k :: 0 <= k < |x + t| ==> IsSpace((x + t)[k]) by {
        forall k | 0 <= k < |x + t|
          ensures IsSpace((x + t)[k])
        {
          if k >= |x| {
            assert (x + t)[k] == t[k - |x|];
          }
        }
      }
      LStripAllDropped(x + t, IsSpace);
    } else {
      LStripDroppedTail(x, t, IsSpace);
      RStripDroppedTail(LStrip(x, IsSpace), t, IsSpace);
    }
  }

  /** strip() adds no character: one absent from s is absent from its strip. */
  lemma StripKeepsAbsent(s: string, c: char)
    requires forall k :: 0 <= k < |s| ==> s[k] != c
    ensures forall k :: 0 <= k < |Strip(s)| ==> Strip(s)[k] != c
  {
    var l := LStrip(s, IsSpace);
    LStripSuffix(s, IsSpace);
    RStripPrefix(l, IsSpace);
    var r := Strip(s);
    forall k | 0 <= k < |r|
      ensures r[k] != c
    {
      assert r[k] == l[k] == s[|s| - |l| + k];
    }
  }

  /** lstrip of a string made only of dropped characters leaves nothing. */
  lemma {:induction false} LStripAllDropped(s: string, drop: char -> bool)
    requires forall k :: 0 <= k < |s| ==> drop(s[k])
    ensures LStrip(s, drop) == []
    decreases |s|
  {
    if s != [] {
      assert forall k :: 0 <= k < |s| - 1 ==> s[1..][k] == s[k + 1];
      LStripAllDropped(s[1..], drop);
    }
  }

  /** s.strip(). */
  function Strip(s: string): string
  {
    RStrip(LStrip(s, IsSpace), IsSpace)
  }

  /** `not s.strip()`: the string is empty or white space only. */
  predicate IsBlank(s: string)
  {
    forall i :: 0 <= i < |s| ==> IsSpace(s[i])
  }

  lemma StripEmptyIffBlank(s: string)
    ensures Strip(s) == [] <==> IsBlank(s)
  {
    var l := LStrip(s, IsSpace);
    LStripSuffix(s, IsSpace);
    if l != [] {
      assert l[0] == s[|s| - |l|];
    }
  }

  /** No white space at either end. */
  predicate Trimmed(s: string)
  {
    s == [] || (!IsSpace(s[0]) && !IsSpace(s[|s| - 1]))
  }

  /** The stripped string has no white space at either end. */
  lemma StripTrimsEnds(s: string)
    ensures Trimmed(Strip(s))
  {
    var l := LStrip(s, IsSpace);
    var r := RStrip(l, IsSpace);
    if r != [] {
      RStripPrefix(l, IsSpace);
      assert r[0] == l[0];
    }
  }

  /** Stripping a string without white space at either end changes nothing. */
  lemma StripOfTrimmed(s: string)
    requires Trimmed(s)
    ensures Strip(s) == s
  {
  }

  /** strip() ignores a leading white space character. */
  lemma StripDropFirst(s: string)
    requires s != [] && IsSpace(s[0])
    ensures Strip(s) == Strip(s[1..])
  {
  }

  /** strip() ignores a trailing white space character. */
  lemma StripDropLast(s: string)
    requires s != [] && !IsSpace(s[0]) && IsSpace(s[|s| - 1])
    ensures Strip(s) == Strip(s[..|s| - 1])
  {
    var t := s[..|s| - 1];
    assert t != [] && t[0] == s[0];
    assert LStrip(s, IsSpace) == s;
    assert LStrip(t, IsSpace) == t;
  }

  /** strip() is idempotent. */
  lemma StripIdempotent(s: string)
    ensures Strip(Strip(s)) == Strip(s)
  {
    StripTrimsEnds(s);
    StripOfTrimmed(Strip(s));
  }

  predicate StartsWith(s: string, p: string)
  {
    |p| <= |s| && s[..|p|] == p
  }

  predicate EndsWith(s: string, p: string)
  {
    |p| <= |s| && s[|s| - |p|..] == p
  }

  /** `p in s` for strings: p occurs as a substring at some index. */
  predicate OccursAt(s: string, p: string, i: int)
  {
    0 <= i && i + |p| <= |s| && s[i..i + |p|] == p
  }

  predicate Contains(s: string, p: string)
  {
    exists i :: 0 <= i <= |s| && OccursAt(s, p, i)
  }

  /** lower() on one character, ASCII letters only. */
  function LowerChar(c: char): char
  {
    if 'A' <= c <= 'Z' then (c as int + 32) as char else c
  }

  /** lower(): maps every ASCII capital to its small letter, keeps the length. */
  function Lower(s: string): (r: string)
    ensures |r| == |s|
    ensures forall i :: 0 <= i < |s| ==> r[i] == LowerChar(s[i])
  {
    seq(|s|, i requires 0 <= i < |s| => LowerChar(s[i]))
  }

  predicate NoUpper(s: string)
  {
    forall i :: 0 <= i < |s| ==> !('A' <= s[i] <= 'Z')
  }

  lemma LowerHasNoUpper(s: string)
    ensures NoUpper(Lower(s))
  {
  }

  lemma LowerIdempotent(s: string)
    ensures Lower(Lower(s)) == Lower(s)
  {
  }

  lemma LowerKeepsSpaces(c: char)
    ensures IsSpace(LowerChar(c)) == IsSpace(c)
    ensures (LowerChar(c) == ' ') == (c == ' ')
    ensures (LowerChar(c) == '\n') == (c == '\n')
  {
  }

  /** Index of the first occurrence of d in s at or after from, or |s| when there is none. */
  function IndexOfFrom(s: string, d: char, from: nat): (i: nat)
    requires from <= |s|
    ensures from <= i <= |s|
    ensures i < |s| ==> s[i] == d
    ensures forall k :: from <= k < i ==> s[k] != d
    decreases |s| - from
  {
    if from == |s| || s[from] == d then from else IndexOfFrom(s, d, from + 1)
  }

  /** sep.join(parts) for a one-character separator. */
  function Join(parts: seq<string>, sep: char): string
  {
    if parts == [] then []
    else if |parts| == 1 then parts[0]
    else parts[0] + [sep] + Join(parts[1..], sep)
  }

  /** s.split(sep) for a one-character separator: never empty, and no part holds sep (JoinSplit joins it back). */
  function Split(s: string, sep: char): (parts: seq<string>)
    ensures |parts| >= 1
    ensures forall i, k :: 0 <= i < |parts| && 0 <= k < |parts[i]| ==> parts[i][k] != sep
    decreases |s|
  {
    var i := IndexOfFrom(s, sep, 0);
    if i == |s| then [s]
    else [s[..i]] + Split(s[i + 1..], sep)
  }

  /** Joining the parts of a split with the same separator gives the string back. */
  lemma {:induction false} JoinSplit(s: string, sep: char)
    ensures Join(Split(s, sep), sep) == s
    decreases |s|
  {
    var i := IndexOfFrom(s, sep, 0);
    if i < |s| {
      JoinSplit(s[i + 1..], sep);
      SplitAt(s, sep, i);
      JoinCons(s[..i], Split(s[i + 1..], sep), sep);
      CutAt(s, i);
    }
  }

  /** Cutting a sequence around the element at i gives it back. */
  lemma CutAt<T>(s: seq<T>, i: nat)
    requires i < |s|
    ensures s[..i] + [s[i]] + s[i + 1..] == s
  {
  }

  /** Joining a list of two or more strings puts a separator after the first. */
  lemma JoinCons(a: string, rest: seq<string>, sep: char)
    requires |rest| >= 1
    ensures Join([a] + rest, sep) == a + [sep] + Join(rest, sep)
  {
    assert ([a] + rest)[1..] == rest;
  }

  /** Extending s does not move a separator already found in it. */
  lemma {:induction false} IndexOfFromAppend(s: string, t: string, d: char, from: nat)
    requires from <= |s| && IndexOfFrom(s, d, from) < |s|
    ensures IndexOfFrom(s + t, d, from) == IndexOfFrom(s, d, from)
    decreases |s| - from
  {
    if s[from] != d {
      IndexOfFromAppend(s, t, d, from + 1);
    }
  }

  /** Appending to the last string of a list that starts with `a` appends to the last string of the rest. */
  lemma AppendLastCons(a: string, rest: seq<string>, t: string)
    requires |rest| >= 1
    ensures var ps := [a] + rest;
      ps[..|ps| - 1] + [ps[|ps| - 1] + t] == [a] + (rest[..|rest| - 1] + [rest[|rest| - 1] + t])
  {
    var ps := [a] + rest;
    assert ps[..|ps| - 1] == [a] + rest[..|rest| - 1];
  }

  /** Splitting at a separator found at i: the part before it, then the split of what follows. */
  lemma SplitAt(s: string, sep: char, i: nat)
    requires i == IndexOfFrom(s, sep, 0) < |s|
    ensures Split(s, sep) == [s[..i]] + Split(s[i + 1..], sep)
  {
  }

  /** A separator-free tail joins the last part of the split. */
  lemma {:induction false} SplitAppendNoSeparator(s: string, t: string, sep: char)
    requires forall k :: 0 <= k < |t| ==> t[k] != sep
    ensures var ps := Split(s, sep);
      Split(s + t, sep) == ps[..|ps| - 1] + [ps[|ps| - 1] + t]
    decreases |s|
  {
    var i := IndexOfFrom(s, sep, 0);
    if i == |s| {
      SplitWithoutSeparator(s + t, sep);
    } else {
      IndexOfFromAppend(s, t, sep, 0);
      SplitAppendNoSeparator(s[i + 1..], t, sep);
      assert (s + t)[..i] == s[..i];
      assert (s + t)[i + 1..] == s[i + 1..] + t;
      SplitAt(s, sep, i);
      SplitAt(s + t, sep, i);
      AppendLastCons(s[..i], Split(s[i + 1..], sep), t);
    }
  }

  /** Every string of the split lies inside s, so it is no longer than s. */
  lemma SplitPartsShorter(s: string, sep: char)
    ensures forall i :: 0 <= i < |Split(s, sep)| ==> |Split(s, sep)[i]| <= |s|
    decreases |s|
  {
    var i := IndexOfFrom(s, sep, 0);
    if i < |s| {
      SplitPartsShorter(s[i + 1..], sep);
    }
  }

  /** A separator-free string splits into itself alone. */
  lemma SplitWithoutSeparator(s: string, sep: char)
    requires forall k :: 0 <= k < |s| ==> s[k] != sep
    ensures Split(s, sep) == [s]
  {
  }

  /** `any(part in {".", ".."} for part in parts)`. */
  predicate HasDotSegment(parts: seq<string>)
  {
    exists i :: 0 <= i < |parts| && (parts[i] == "." || parts[i] == "..")
  }

  /** Dropping the last part keeps a list free of "." and "..". */
  lemma NoDotSegmentInPrefix(parts: seq<string>, n: nat)
    requires n <= |parts| && !HasDotSegment(parts)
    ensures !HasDotSegment(parts[..n])
  {
    forall i | 0 <= i < n
      ensures parts[..n][i] != "." && parts[..n][i] != ".."
    {
      assert parts[..n][i] == parts[i];
    }
  }

  /** A word of str.split(): non-empty, without white space. */
  predicate IsWord(w: string)
  {
    w != [] && forall k :: 0 <= k < |w| ==> !IsSpace(w[k])
  }

  /** Length of the longest prefix of s free of white space. */
  function WordLength(s: string): (n: nat)
    ensures n <= |s|
    ensures forall k :: 0 <= k < n ==> !IsSpace(s[k])
    ensures n < |s| ==> IsSpace(s[n])
  {
    if s == [] || IsSpace(s[0]) then 0 else 1 + WordLength(s[1..])
  }

  /** s.split() with no argument: the maximal runs of non-white-space characters, in order. */
  function Words(s: string): (ws: seq<string>)
    ensures forall i :: 0 <= i < |ws| ==> IsWord(ws[i])
    decreases |s|
  {
    var t := LStrip(s, IsSpace);
    if t == [] then []
    else
      var n := WordLength(t);
      [t[..n]] + Words(t[n..])
  }

  /** sep.join(ws). */
  function JoinWith(ws: seq<string>, sep: string): string
  {
    if ws == [] then []
    else if |ws| == 1 then ws[0]
    else ws[0] + sep + JoinWith(ws[1..], sep)
  }
}
