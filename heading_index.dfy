/**
 * The heading index of section_operations.py: the ATX heading pattern
 * `^(?P<hashes>#{1,6})\s+(?P<title>.+?)\s*$` (MULTILINE) as Python's
 * backtracking engine resolves it, the parser that turns its matches into
 * headings, the normalised lookup key, first-match lookup and section bounds.
 *
 * Because `\s` also matches line breaks, `\s+` may run past the end of the
 * heading line (a bare "#" line followed by a text line is one heading), and
 * the greedy `\s*` before `$` makes a match absorb the blank lines after it.
 */
module HeadingIndex {
  import opened Text
  import opened Wrappers

  /** A parsed heading: its level, stripped title, the normalised key recorded beside it and its offsets. */
  datatype Heading = Heading(level: nat, title: string, key: string, start: nat, end: nat)

  /** One match of the heading pattern: its start, the number of '#', the title group and the match end. */
  datatype RawMatch = RawMatch(start: nat, level: nat, titleStart: nat, titleEnd: nat, end: nat)

  // ---------------------------------------------------------------- keys

  /**
   * The shape of a normalised key: no white space at either end, and every
   * white-space character is a single ' ' between two non-space characters.
   */
  predicate SingleSpaced(s: string)
  {
    (s == [] || (!IsSpace(s[0]) && !IsSpace(s[|s| - 1])))
    && forall i :: 0 <= i < |s| && IsSpace(s[i]) ==>
         s[i] == ' ' && 0 < i < |s| - 1 && !IsSpace(s[i - 1]) && !IsSpace(s[i + 1])
  }

  lemma {:induction false} JoinedWordsSingleSpaced(ws: seq<string>)
    requires forall i :: 0 <= i < |ws| ==> IsWord(ws[i])
    ensures SingleSpaced(JoinWith(ws, " "))
    ensures ws != [] ==> |JoinWith(ws, " ")| >= |ws[0]| && JoinWith(ws, " ")[..|ws[0]|] == ws[0]
  {
    if |ws| > 1 {
      var w := ws[0];
      var rest := JoinWith(ws[1..], " ");
      JoinedWordsSingleSpaced(ws[1..]);
      var j := JoinWith(ws, " ");
      assert j == w + " " + rest;
      assert IsWord(ws[1]);
      assert rest != [] && !IsSpace(rest[0]) by {
        assert rest[..|ws[1]|] == ws[1];
        assert rest[0] == ws[1][0];
      }
      forall i | 0 <= i < |j| && IsSpace(j[i])
        ensures j[i] == ' ' && 0 < i < |j| - 1 && !IsSpace(j[i - 1]) && !IsSpace(j[i + 1])
      {
        if i > |w| {
          assert j[i] == rest[i - |w| - 1];
          assert j[i + 1] == rest[i - |w|];
          if i - |w| - 1 > 0 {
            assert j[i - 1] == rest[i - |w| - 2];
          }
        } else if i == |w| {
          assert j[i - 1] == w[|w| - 1];
          assert j[i + 1] == rest[0];
        }
      }
      assert j[0] == w[0];
      assert j[|j| - 1] == rest[|rest| - 1];
    }
  }

  lemma LowerKeepsSingleSpaced(s: string)
    requires SingleSpaced(s)
    ensures SingleSpaced(Lower(s))
  {
    var t := Lower(s);
    forall i | 0 <= i < |s|
      ensures IsSpace(t[i]) == IsSpace(s[i]) && (s[i] == ' ' ==> t[i] == ' ')
    {
      LowerKeepsSpaces(s[i]);
    }
  }

  /** A string starting with a word splits into that word and the words of the rest. */
  lemma WordsOfWordStart(s: string)
    requires s != [] && !IsSpace(s[0])
    ensures Words(s) == [s[..WordLength(s)]] + Words(s[WordLength(s)..])
  {
    assert LStrip(s, IsSpace) == s;
  }

  /** Leading white space does not change the words. */
  lemma WordsSkipSpace(s: string)
    requires s != [] && IsSpace(s[0])
    ensures Words(s) == Words(s[1..])
  {
  }

  lemma SingleSpacedTail(s: string, n: nat)
    requires SingleSpaced(s) && n < |s| && IsSpace(s[n])
    ensures n + 1 < |s| && SingleSpaced(s[n + 1..])
  {
    var tail := s[n + 1..];
    forall i | 0 <= i < |tail| && IsSpace(tail[i])
      ensures tail[i] == ' ' && 0 < i < |tail| - 1 && !IsSpace(tail[i - 1]) && !IsSpace(tail[i + 1])
    {
      assert tail[i] == s[n + 1 + i];
    }
  }

  lemma JoinWithCons(w: string, rest: seq<string>)
    requires rest != []
    ensures JoinWith([w] + rest, " ") == w + " " + JoinWith(rest, " ")
  {
    assert ([w] + rest)[1..] == rest;
  }

  lemma RoundTripOneWord(s: string)
    requires s != [] && !IsSpace(s[0]) && WordLength(s) == |s|
    ensures JoinWith(Words(s), " ") == s
  {
    WordsOfWordStart(s);
    assert s[..|s|] == s && s[|s|..] == [];
    assert Words(s[|s|..]) == [];
  }

  /** A word followed by white space: the word is the leading run of non-space characters. */
  lemma {:induction false} WordLengthOfWord(w: string, rest: string)
    requires IsWord(w) && rest != [] && IsSpace(rest[0])
    ensures WordLength(w + rest) == |w|
    decreases |w|
  {
    assert (w + rest)[1..] == w[1..] + rest;
    if |w| == 1 {
      assert w[1..] + rest == rest;
    } else {
      WordLengthOfWord(w[1..], rest);
    }
  }

  lemma RoundTripStep(w: string, tail: string)
    requires IsWord(w) && tail != [] && !IsSpace(tail[0])
    requires JoinWith(Words(tail), " ") == tail
    ensures JoinWith(Words(w + " " + tail), " ") == w + " " + tail
  {
    var s := w + " " + tail;
    WordLengthOfWord(w, " " + tail);
    assert s == w + (" " + tail);
    WordsOfWordStart(s);
    assert s[..|w|] == w && s[|w|..] == " " + tail;
    WordsSkipSpace(" " + tail);
    assert (" " + tail)[1..] == tail;
    WordsOfWordStart(tail);
    JoinWithCons(w, Words(tail));
  }

  /** Splitting a single-spaced string on white space and joining with " " gives it back. */
  lemma {:induction false} SingleSpacedWordsRoundTrip(s: string)
    requires SingleSpaced(s)
    ensures JoinWith(Words(s), " ") == s
    decreases |s|
  {
    if s != [] {
      var n := WordLength(s);
      if n == |s| {
        RoundTripOneWord(s);
      } else {
        SingleSpacedTail(s, n);
        var w, tail := s[..n], s[n + 1..];
        SingleSpacedWordsRoundTrip(tail);
        assert s == w + " " + tail;
        RoundTripStep(w, tail);
      }
    }
  }

  /**
   * `_normalize_heading_key`: collapse white-space runs to one space, trim and
   * lower-case. The key is single-spaced and has no capital letter.
   */
  function NormalizeHeadingKey(value: string): string
  {
    Lower(JoinWith(Words(Strip(value)), " "))
  }

  /** A normalised key is single-spaced and has no capital letter. */
  lemma NormalizeHeadingKeyShape(value: string)
    ensures SingleSpaced(NormalizeHeadingKey(value))
    ensures NoUpper(NormalizeHeadingKey(value))
  {
    var ws := Words(Strip(value));
    JoinedWordsSingleSpaced(ws);
    LowerKeepsSingleSpaced(JoinWith(ws, " "));
    LowerHasNoUpper(JoinWith(ws, " "));
  }

  /** Normalising a key again changes nothing. */
  lemma NormalizeHeadingKeyIdempotent(value: string)
    ensures NormalizeHeadingKey(NormalizeHeadingKey(value)) == NormalizeHeadingKey(value)
  {
    var k := NormalizeHeadingKey(value);
    NormalizeHeadingKeyShape(value);
    StripOfTrimmed(k);
    SingleSpacedWordsRoundTrip(k);
    assert Lower(k) == k;
  }

  // ------------------------------------------------------- the pattern

  predicate AtLineStart(text: string, p: nat)
  {
    p == 0 || (p <= |text| && text[p - 1] == '\n')
  }

  /** Length of the run of '#' starting at p. */
  function HashRun(text: string, p: nat): (n: nat)
    requires p <= |text|
    ensures p + n <= |text|
    ensures forall k :: p <= k < p + n ==> text[k] == '#'
    ensures p + n == |text| || text[p + n] != '#'
    decreases |text| - p
  {
    if p < |text| && text[p] == '#' then 1 + HashRun(text, p + 1) else 0
  }

  /** End of the white-space run starting at q. */
  function SpaceRunEnd(text: string, q: nat): (e: nat)
    requires q <= |text|
    ensures q <= e <= |text|
    ensures forall k :: q <= k < e ==> IsSpace(text[k])
    ensures e == |text| || !IsSpace(text[e])
    decreases |text| - q
  {
    if q < |text| && IsSpace(text[q]) then SpaceRunEnd(text, q + 1) else q
  }

  /** Where the lazy title starting at the non-space t on a line ending at l stops: after its last non-space character. */
  function TitleEnd(text: string, t: nat, l: nat): (e: nat)
    requires t < l <= |text| && !IsSpace(text[t])
    ensures t < e <= l
    ensures !IsSpace(text[e - 1])
    ensures forall k :: e <= k < l ==> IsSpace(text[k])
    decreases l
  {
    if IsSpace(text[l - 1]) then TitleEnd(text, t, l - 1) else l
  }

  /** The last '\n' in [lo, hi), given that there is one at lo. */
  function LastNewline(text: string, lo: nat, hi: nat): (x: nat)
    requires lo < hi <= |text| && text[lo] == '\n'
    ensures lo <= x < hi && text[x] == '\n'
    ensures forall k :: x < k < hi ==> text[k] != '\n'
    decreases hi
  {
    if text[hi - 1] == '\n' then hi - 1 else LastNewline(text, lo, hi - 1)
  }

  /** The last index in [lo, hi) holding anything but '\n', if any. */
  function LastNonNewline(text: string, lo: nat, hi: nat): (r: Option<nat>)
    requires hi <= |text|
    ensures r.Some? ==>
      (lo <= r.value < hi && text[r.value] != '\n' && forall k :: r.value < k < hi ==> text[k] == '\n')
    ensures r.None? ==> forall k :: lo <= k < hi ==> text[k] == '\n'
    decreases hi
  {
    if hi <= lo then None
    else if text[hi - 1] != '\n' then Some(hi - 1)
    else LastNonNewline(text, lo, hi - 1)
  }

  /**
   * Where `\s*$` stops after a title ending at e on a line ending at l: the
   * greedy `\s*` runs over all the white space and gives back characters
   * until `$` holds, i.e. at the end of the text or before the last '\n' of
   * the white-space run.
   */
  function DollarEnd(text: string, e: nat, l: nat): (x: nat)
    requires e <= l <= |text|
    requires forall k :: e <= k < l ==> IsSpace(text[k])
    requires l == |text| || text[l] == '\n'
    ensures l <= x <= |text|
    ensures x == |text| || text[x] == '\n'
    ensures forall k :: e <= k < x ==> IsSpace(text[k])
  {
    var w := SpaceRunEnd(text, e);
    if w == |text| then |text|
    else
      assert l < w by {
        assert w >= l;
        assert IsSpace(text[l]);
      }
      LastNewline(text, l, w)
  }

  /** Where a match lies: a line start holding '#', a title group inside it, an end at a line end or the end of the text. */
  predicate MatchSpan(text: string, m: RawMatch)
  {
    AtLineStart(text, m.start)
    && 1 <= m.level <= 6
    && m.start + m.level < m.titleStart < m.titleEnd <= m.end <= |text|
    && text[m.start] == '#'
    && (m.end == |text| || text[m.end] == '\n')
  }

  /** What every match of the pattern satisfies: 1 to 6 '#', then white space, a one-line title, and an end where `$` holds. */
  predicate WellFormedMatch(text: string, m: RawMatch)
  {
    MatchSpan(text, m)
    && (forall k :: m.start <= k < m.start + m.level ==> text[k] == '#')
    && text[m.start + m.level] != '#'
    && IsSpace(text[m.start + m.level])
    && (forall k :: m.titleStart <= k < m.titleEnd ==> text[k] != '\n')
  }

  /** The match of the heading pattern attempted at the line start p, if it succeeds. */
  function MatchAt(text: string, p: nat): (m: Option<RawMatch>)
    requires p < |text| && AtLineStart(text, p)
    ensures m.Some? ==> m.value.start == p && WellFormedMatch(text, m.value)
  {
    var h := HashRun(text, p);
    if h == 0 || h > 6 then None
    else
      var q := p + h;
      var w := SpaceRunEnd(text, q);
      if w == q then None
      else if w < |text| then
        // The title starts at the first non-space character and stops before the trailing white space of its line.
        var l := IndexOfFrom(text, '\n', w);
        var e := TitleEnd(text, w, l);
        Some(RawMatch(p, h, w, e, DollarEnd(text, e, l)))
      else
        // White space runs to the end of the text: `\s+` gives back one non-newline character for the title.
        match LastNonNewline(text, q + 1, |text|)
        case None => None
        case Some(t) => Some(RawMatch(p, h, t, t + 1, |text|))
  }

  /** re.finditer from pos: matches are tried at every line start and scanning resumes at each match end. */
  function Scan(text: string, pos: nat): (ms: seq<RawMatch>)
    requires pos <= |text|
    decreases |text| - pos
  {
    if pos == |text| then []
    else if !AtLineStart(text, pos) then Scan(text, pos + 1)
    else match MatchAt(text, pos)
    case None => Scan(text, pos + 1)
    case Some(m) =>
      [m] + Scan(text, m.end)
  }

  /** Match spans at or after pos, disjoint and in order. */
  predicate SoundMatches(text: string, pos: nat, ms: seq<RawMatch>)
  {
    (forall i :: 0 <= i < |ms| ==> MatchSpan(text, ms[i]) && pos <= ms[i].start)
    && forall i, j :: 0 <= i < j < |ms| ==> ms[i].end < ms[j].start
  }

  /** A match span starting at pos followed by sound matches after its end is sound from pos. */
  lemma ConsSound(text: string, pos: nat, m: RawMatch, rest: seq<RawMatch>)
    requires MatchSpan(text, m) && m.start == pos
    requires SoundMatches(text, m.end, rest)
    ensures SoundMatches(text, pos, [m] + rest)
  {
    var ms := [m] + rest;
    forall i | 0 <= i < |ms|
      ensures MatchSpan(text, ms[i]) && pos <= ms[i].start
    {
      if i > 0 {
        assert ms[i] == rest[i - 1];
      }
    }
    forall i, j | 0 <= i < j < |ms|
      ensures ms[i].end < ms[j].start
    {
      assert ms[j] == rest[j - 1];
      if i > 0 {
        assert ms[i] == rest[i - 1];
      } else {
        assert text[ms[j].start] == '#';
      }
    }
  }

  /** Matches sound from a later position are sound from an earlier one. */
  lemma SoundEarlier(text: string, pos: nat, later: nat, ms: seq<RawMatch>)
    requires pos <= later && SoundMatches(text, later, ms)
    ensures SoundMatches(text, pos, ms)
  {
  }

  /** Every scanned match is a match span at or after pos, and the matches are disjoint and in order. */
  lemma {:induction false} ScanSound(text: string, pos: nat)
    requires pos <= |text|
    ensures SoundMatches(text, pos, Scan(text, pos))
    decreases |text| - pos
  {
    if pos < |text| {
      if !AtLineStart(text, pos) {
        ScanSound(text, pos + 1);
        SoundEarlier(text, pos, pos + 1, Scan(text, pos + 1));
      } else {
        match MatchAt(text, pos)
        case None =>
          ScanSound(text, pos + 1);
          SoundEarlier(text, pos, pos + 1, Scan(text, pos + 1));
        case Some(m) =>
          ScanSound(text, m.end);
          ConsSound(text, pos, m, Scan(text, m.end));
      }
    }
  }

  // ------------------------------------------------------------ parsing

  /** The parser's end offset: the match end moved past one following "\r\n", "\n" or "\r". */
  function ExtendEnd(text: string, x: nat): (e: nat)
    requires x <= |text|
    ensures x <= e <= |text|
    ensures x < |text| && text[x] == '\n' ==> e == x + 1
    ensures x == |text| ==> e == x
  {
    if x + 2 <= |text| && text[x..x + 2] == "\r\n" then x + 2
    else if x < |text| && text[x] in "\n\r" then x + 1
    else x
  }

  /** text[lo:hi].strip(), computed on offsets. */
  function StripSpan(text: string, lo: nat, hi: nat): string
    requires lo <= hi <= |text|
    decreases hi - lo
  {
    if lo < hi && IsSpace(text[lo]) then StripSpan(text, lo + 1, hi)
    else if lo < hi && IsSpace(text[hi - 1]) then StripSpan(text, lo, hi - 1)
    else text[lo..hi]
  }

  /** Stripping on offsets is Python's strip() of the slice. */
  lemma {:induction false} StripSpanIsStrip(text: string, lo: nat, hi: nat)
    requires lo <= hi <= |text|
    ensures StripSpan(text, lo, hi) == Strip(text[lo..hi])
    decreases hi - lo
  {
    var s := text[lo..hi];
    if lo < hi && IsSpace(text[lo]) {
      StripSpanIsStrip(text, lo + 1, hi);
      assert s[1..] == text[lo + 1..hi];
      StripDropFirst(s);
    } else if lo < hi && IsSpace(text[hi - 1]) {
      StripSpanIsStrip(text, lo, hi - 1);
      assert s[..|s| - 1] == text[lo..hi - 1];
      StripDropLast(s);
    } else {
      StripOfTrimmed(s);
    }
  }

  function ToHeading(text: string, m: RawMatch): (h: Heading)
    requires MatchSpan(text, m)
    ensures h.level == m.level && h.start == m.start && h.end == ExtendEnd(text, m.end)
    ensures h.key == NormalizeHeadingKey(h.title)
  {
    var title := StripSpan(text, m.titleStart, m.titleEnd);
    Heading(m.level, title, NormalizeHeadingKey(title), m.start, ExtendEnd(text, m.end))
  }

  /**
   * Headings of a text in document order: levels 1 to 6, a heading starts on
   * a line start with its '#' run, ends at the end of the text or just after
   * a '\n', and ends no later than the next heading starts.
   */
  predicate WellFormed(text: string, hs: seq<Heading>)
  {
    (forall i :: 0 <= i < |hs| ==>
       1 <= hs[i].level <= 6
       && hs[i].start < hs[i].end <= |text|
       && AtLineStart(text, hs[i].start)
       && text[hs[i].start] == '#'
       && (hs[i].end == |text| || text[hs[i].end - 1] == '\n'))
    && forall i, j :: 0 <= i < j < |hs| ==> hs[i].end <= hs[j].start
  }

  /** Headings made from ordered, disjoint matches are well formed. */
  lemma MatchesWellFormed(text: string, ms: seq<RawMatch>, hs: seq<Heading>)
    requires forall i :: 0 <= i < |ms| ==> MatchSpan(text, ms[i])
    requires forall i, j :: 0 <= i < j < |ms| ==> ms[i].end < ms[j].start
    requires |hs| == |ms| && forall i :: 0 <= i < |ms| ==> MatchSpan(text, ms[i]) && hs[i] == ToHeading(text, ms[i])
    ensures WellFormed(text, hs)
  {
    forall i | 0 <= i < |hs|
      ensures 1 <= hs[i].level <= 6 && hs[i].start < hs[i].end <= |text|
      ensures AtLineStart(text, hs[i].start) && text[hs[i].start] == '#'
      ensures hs[i].end == |text| || text[hs[i].end - 1] == '\n'
    {
      var m := ms[i];
      assert MatchSpan(text, m) && hs[i] == ToHeading(text, m);
    }
    forall i, j | 0 <= i < j < |hs|
      ensures hs[i].end <= hs[j].start
    {
      assert ms[i].end < ms[j].start;
      assert MatchSpan(text, ms[i]) && hs[i] == ToHeading(text, ms[i]);
      assert MatchSpan(text, ms[j]) && hs[j] == ToHeading(text, ms[j]);
    }
  }

  /** `_parse_headings` as a function of the text. */
  function Headings(text: string): (hs: seq<Heading>)
    ensures WellFormed(text, hs)
  {
    var ms := Scan(text, 0);
    ScanSound(text, 0);
    var hs := seq(|ms|, i requires 0 <= i < |ms| => ToHeading(text, ms[i]));
    MatchesWellFormed(text, ms, hs);
    hs
  }

  /** The heading at index i is the one made from the i-th match. */
  lemma HeadingAt(text: string, i: nat)
    requires i < |Scan(text, 0)|
    ensures |Headings(text)| == |Scan(text, 0)|
    ensures MatchSpan(text, Scan(text, 0)[i])
    ensures Headings(text)[i] == ToHeading(text, Scan(text, 0)[i])
  {
    ScanSound(text, 0);
  }

  /** `_parse_headings`: one heading per match of the pattern, in order. */
  method ParseHeadings(text: string) returns (hs: seq<Heading>)
    ensures hs == Headings(text)
    ensures WellFormed(text, hs)
  {
    var matches := Scan(text, 0);
    ghost var all := Headings(text);
    hs := [];
    var i := 0;
    while i < |matches|
      invariant i <= |matches| == |all|
      invariant hs == all[..i]
    {
      var m := matches[i];
      HeadingAt(text, i);
      var end := ExtendEnd(text, m.end);
      var title := StripSpan(text, m.titleStart, m.titleEnd);
      hs := hs + [Heading(m.level, title, NormalizeHeadingKey(title), m.start, end)];
      PrefixSnoc(all, i);
      i := i + 1;
    }
    assert all[..i] == all;
  }

  // ------------------------------------------------------------- lookup

  datatype HeadingError = HeadingNotFound(heading: string)

  /** A located heading: the parsed headings and the index of the one found. */
  datatype Located = Located(headings: seq<Heading>, index: nat)
  {
    predicate Valid() { index < |headings| }
    function Found(): Heading requires Valid() { headings[index] }
  }

  /** The first index at or after from whose key is key. */
  function FindKey(hs: seq<Heading>, key: string, from: nat): (r: Option<nat>)
    requires from <= |hs|
    ensures r.Some? ==>
      (from <= r.value < |hs| && hs[r.value].key == key && forall j :: from <= j < r.value ==> hs[j].key != key)
    ensures r.None? ==> forall j :: from <= j < |hs| ==> hs[j].key != key
    decreases |hs| - from
  {
    if from == |hs| then None
    else if hs[from].key == key then Some(from)
    else FindKey(hs, key, from + 1)
  }

  /**
   * `_locate_heading`: the first heading whose normalised key equals the
   * normalised query; an error when none does.
   */
  function Locate(text: string, heading: string): (r: Result<Located, HeadingError>)
    ensures r.Ok? ==>
      (r.value.Valid() && r.value.headings == Headings(text)
       && r.value.Found().key == NormalizeHeadingKey(heading)
       && forall j :: 0 <= j < r.value.index ==> r.value.headings[j].key != NormalizeHeadingKey(heading))
    ensures r.Err? ==>
      (r.error == HeadingNotFound(heading)
       && forall j :: 0 <= j < |Headings(text)| ==> Headings(text)[j].key != NormalizeHeadingKey(heading))
  {
    var hs := Headings(text);
    match FindKey(hs, NormalizeHeadingKey(heading), 0)
    case Some(i) => Ok(Located(hs, i))
    case None => Err(HeadingNotFound(heading))
  }

  /** `_locate_heading`: parse, then return at the first heading with the query's key. */
  method LocateHeading(text: string, heading: string) returns (r: Result<Located, HeadingError>)
    ensures r == Locate(text, heading)
  {
    var hs := ParseHeadings(text);
    var target := NormalizeHeadingKey(heading);
    var i := 0;
    while i < |hs|
      invariant i <= |hs|
      invariant FindKey(hs, target, 0) == FindKey(hs, target, i)
    {
      if hs[i].key == target {
        assert FindKey(hs, target, 0) == Some(i);
        return Ok(Located(hs, i));
      }
      i := i + 1;
    }
    assert FindKey(hs, target, 0) == None;
    return Err(HeadingNotFound(heading));
  }

  // ------------------------------------------------------------- bounds

  /** Index of the first later heading whose level is at most that of hs[index], or |hs|. */
  function NextBoundary(hs: seq<Heading>, index: nat, from: nat): (j: nat)
    requires index < from <= |hs|
    ensures from <= j <= |hs|
    ensures j < |hs| ==> hs[j].level <= hs[index].level
    ensures forall k :: from <= k < j ==> hs[k].level > hs[index].level
    decreases |hs| - from
  {
    if from == |hs| || hs[from].level <= hs[index].level then from
    else NextBoundary(hs, index, from + 1)
  }

  /**
   * The end of the section owned by hs[index]: the start of the first later
   * heading of the same or a higher rank, or the end of the text; every
   * heading in between is of a lower rank.
   */
  function SectionEnd(hs: seq<Heading>, index: nat, textLength: nat): (e: nat)
    requires index < |hs|
    ensures (e == textLength && forall k :: index < k < |hs| ==> hs[k].level > hs[index].level)
      || exists j :: index < j < |hs| && e == hs[j].start && hs[j].level <= hs[index].level
           && forall k :: index < k < j ==> hs[k].level > hs[index].level
  {
    var j := NextBoundary(hs, index, index + 1);
    if j < |hs| then hs[j].start else textLength
  }

  /** `_section_bounds`: from the heading's end to the next heading of the same or a higher rank. */
  method SectionBounds(hs: seq<Heading>, index: nat, textLength: nat) returns (start: nat, end: nat)
    requires index < |hs|
    ensures start == hs[index].end && end == SectionEnd(hs, index, textLength)
  {
    var current := hs[index];
    start := current.end;
    var j := index + 1;
    while j < |hs|
      invariant index + 1 <= j <= |hs|
      invariant NextBoundary(hs, index, index + 1) == NextBoundary(hs, index, j)
    {
      if hs[j].level <= current.level {
        return start, hs[j].start;
      }
      j := j + 1;
    }
    return start, textLength;
  }

  /** For parsed headings a section lies inside the text, after its heading. */
  lemma SectionInsideText(text: string, hs: seq<Heading>, index: nat)
    requires WellFormed(text, hs) && index < |hs|
    ensures hs[index].end <= SectionEnd(hs, index, |text|) <= |text|
  {
    var j := NextBoundary(hs, index, index + 1);
    if j < |hs| {
      assert hs[index].end <= hs[j].start;
    }
  }
}
