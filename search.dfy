/**
 * The search kernels of search_operations.py, over in-memory note files: the
 * path filter of `search_notes`, the match, snippet and ranking loop of
 * `search_note_content`, and the tag logic of `search_notes_by_tags`.
 *
 * The directory walk becomes a sequence of note files in walk order; the
 * frontmatter parser and Python's str() of a YAML value are parameters.
 */
module Search {
  import opened Text
  import opened Wrappers
  import Frontmatter
  import VaultPaths

  datatype SearchError = EmptyQuery | NoSearchTags

  /** A note file as the walk finds it: its path below the vault root, by components, and its text. */
  datatype NoteFile = NoteFile(path: seq<string>, text: string)

  /** One result of the content search. */
  datatype FileMatch = FileMatch(path: string, matchCount: nat, snippets: seq<string>)

  const SnippetRadius: nat := 100
  const MaxSnippets: nat := 3
  const MaxResults: nat := 10

  // ------------------------------------------------------------ path filter

  /**
   * `search_notes` without metadata: the listed names whose lower-cased
   * form contains the lower-cased query, in listing order.
   */
  function FilterByQuery(names: seq<string>, query: string): (r: seq<string>)
    ensures |r| <= |names|
    ensures multiset(r) <= multiset(names)
    ensures forall x :: x in r <==> x in names && Contains(Lower(x), Lower(query))
  {
    if names == [] then []
    else
      var rest := FilterByQuery(names[..|names| - 1], query);
      var last := names[|names| - 1];
      assert names == names[..|names| - 1] + [last];
      if Contains(Lower(last), Lower(query)) then rest + [last] else rest
  }

  /** Each kept name appears exactly as often as in the listing; a dropped one not at all. */
  lemma {:induction false} FilterCounts(names: seq<string>, query: string, x: string)
    ensures multiset(FilterByQuery(names, query))[x] ==
      if Contains(Lower(x), Lower(query)) then multiset(names)[x] else 0
    decreases |names|
  {
    if names != [] {
      var init := names[..|names| - 1];
      var last := names[|names| - 1];
      assert names == init + [last];
      FilterCounts(init, query, x);
    }
  }

  /** Listing order is kept: the filter drops names and never reorders them. */
  lemma {:induction false} FilterKeepsOrder(names: seq<string>, query: string, i: nat, j: nat)
    requires i < j < |names|
    requires names[i] in FilterByQuery(names, query) && names[j] in FilterByQuery(names, query)
    requires forall a, b :: 0 <= a < b < |names| ==> names[a] != names[b]
    ensures Position(FilterByQuery(names, query), names[i]) < Position(FilterByQuery(names, query), names[j])
    decreases |names|
  {
    var init := names[..|names| - 1];
    var rest := FilterByQuery(init, query);
    var last := names[|names| - 1];
    assert names[..|names| - 1] == init;
    assert forall a :: 0 <= a < |init| ==> init[a] == names[a];
    if j == |names| - 1 {
      assert names[i] in init;
      assert names[i] in rest by {
        assert Contains(Lower(names[i]), Lower(query));
      }
      assert last !in rest by {
        assert last !in init;
      }
      PositionInPrefix(rest, last, names[i]);
    } else {
      assert names[i] in rest && names[j] in rest by {
        assert Contains(Lower(names[i]), Lower(query)) && Contains(Lower(names[j]), Lower(query));
      }
      FilterKeepsOrder(init, query, i, j);
      if Contains(Lower(last), Lower(query)) {
        PositionAppend(rest, last, names[i]);
        PositionAppend(rest, last, names[j]);
      }
    }
  }

  /** Index of the first occurrence of x in s. */
  function Position(s: seq<string>, x: string): (k: nat)
    requires x in s
    ensures k < |s| && s[k] == x && forall m :: 0 <= m < k ==> s[m] != x
  {
    if s[0] == x then 0 else 1 + Position(s[1..], x)
  }

  lemma {:induction false} PositionAppend(s: seq<string>, y: string, x: string)
    requires x in s
    ensures x in s + [y] && Position(s + [y], x) == Position(s, x)
  {
    var t := s + [y];
    assert t[0] == s[0];
    if s[0] != x {
      assert t[1..] == s[1..] + [y];
      assert x in s[1..];
      PositionAppend(s[1..], y, x);
    }
  }

  lemma PositionInPrefix(s: seq<string>, y: string, x: string)
    requires x in s && y !in s
    ensures x in s + [y] && y in s + [y] && Position(s + [y], x) < Position(s + [y], y)
  {
    PositionAppend(s, y, x);
    var t := s + [y];
    assert t[|s|] == y;
    assert forall m :: 0 <= m < |s| ==> t[m] == s[m];
  }

  // ----------------------------------------------------------- match loop

  /** `text.find(query, start)`: the first occurrence at or after start (FindFirst: none is skipped). */
  function Find(text: string, query: string, start: nat): (r: Option<nat>)
    requires start <= |text|
    ensures r.Some? ==> start <= r.value && OccursAt(text, query, r.value)
    decreases |text| - start
  {
    if OccursAt(text, query, start) then Some(start)
    else if start == |text| then None
    else Find(text, query, start + 1)
  }

  /** Find skips no occurrence: none lies before the one it reports, and there is none when it reports none. */
  lemma {:induction false} FindFirst(text: string, query: string, start: nat)
    requires start <= |text|
    ensures Find(text, query, start).Some? ==>
      forall j :: start <= j < Find(text, query, start).value ==> !OccursAt(text, query, j)
    ensures Find(text, query, start).None? ==> forall j :: start <= j <= |text| ==> !OccursAt(text, query, j)
    decreases |text| - start
  {
    if !OccursAt(text, query, start) && start < |text| {
      FindFirst(text, query, start + 1);
    }
  }

  /**
   * The occurrences the loop of `search_note_content` records from start:
   * each search resumes right after the previous match (properties in
   * OccurrencesSound and OccurrencesCover).
   */
  function Occurrences(text: string, query: string, start: nat): (ps: seq<nat>)
    requires query != [] && start <= |text|
    ensures forall k :: 0 <= k < |ps| ==> start <= ps[k] && ps[k] + |query| <= |text|
    decreases |text| - start
  {
    match Find(text, query, start)
    case None => []
    case Some(i) => [i] + Occurrences(text, query, i + |query|)
  }

  /** Every recorded position is an occurrence, and the positions increase without overlapping. */
  lemma {:induction false} OccurrencesSound(text: string, query: string, start: nat)
    requires query != [] && start <= |text|
    ensures forall k :: 0 <= k < |Occurrences(text, query, start)| ==>
      OccursAt(text, query, Occurrences(text, query, start)[k])
    ensures forall k :: 0 < k < |Occurrences(text, query, start)| ==>
      Occurrences(text, query, start)[k - 1] + |query| <= Occurrences(text, query, start)[k]
    decreases |text| - start
  {
    match Find(text, query, start)
    case None =>
    case Some(i) =>
      OccurrencesSound(text, query, i + |query|);
      var ps := Occurrences(text, query, start);
      var rest := Occurrences(text, query, i + |query|);
      assert ps == [i] + rest;
      forall k | 0 <= k < |ps|
        ensures OccursAt(text, query, ps[k])
        ensures k > 0 ==> ps[k - 1] + |query| <= ps[k]
      {
        if k > 0 {
          assert ps[k] == rest[k - 1];
          assert OccursAt(text, query, rest[k - 1]);
          if k > 1 {
            assert ps[k - 1] == rest[k - 2];
            assert rest[k - 2] + |query| <= rest[k - 1];
          } else {
            assert ps[k - 1] == i && i + |query| <= rest[0];
          }
        } else {
          assert ps[k] == i;
          assert OccursAt(text, query, i);
        }
      }
  }

  /** Position j lies inside one of the matches recorded in ps. */
  predicate Covered(ps: seq<nat>, query: string, j: nat)
  {
    exists k :: 0 <= k < |ps| && ps[k] <= j < ps[k] + |query|
  }

  /** A position covered by later matches stays covered when an earlier one is put in front. */
  lemma CoveredCons(i: nat, rest: seq<nat>, query: string, j: nat)
    requires Covered(rest, query, j)
    ensures Covered([i] + rest, query, j)
  {
    var k :| 0 <= k < |rest| && rest[k] <= j < rest[k] + |query|;
    assert ([i] + rest)[k + 1] == rest[k];
  }

  /** Nothing is missed: every occurrence at or after start overlaps a recorded match. */
  lemma {:induction false} OccurrencesCover(text: string, query: string, start: nat, j: nat)
    requires query != [] && start <= |text| && start <= j && OccursAt(text, query, j)
    ensures Covered(Occurrences(text, query, start), query, j)
    decreases |text| - start
  {
    FindFirst(text, query, start);
    OccurrencesStep(text, query, start);
    var i := Find(text, query, start).value;
    var rest := Occurrences(text, query, i + |query|);
    if j >= i + |query| {
      OccurrencesCover(text, query, i + |query|, j);
      CoveredCons(i, rest, query, j);
    } else {
      assert ([i] + rest)[0] == i;
    }
  }

  /** A text without the query has no match. */
  lemma NoOccurrences(text: string, query: string)
    requires query != []
    ensures Occurrences(text, query, 0) == [] <==> forall j :: 0 <= j <= |text| ==> !OccursAt(text, query, j)
  {
    if Occurrences(text, query, 0) == [] {
      forall j | 0 <= j <= |text| && OccursAt(text, query, j)
        ensures false
      {
        OccurrencesCover(text, query, 0, j);
      }
    }
  }

  /** One step of the occurrence list: the next match, then the matches after it. */
  lemma OccurrencesStep(text: string, query: string, start: nat)
    requires query != [] && start <= |text|
    ensures Find(text, query, start).None? ==> Occurrences(text, query, start) == []
    ensures Find(text, query, start).Some? ==>
      var i := Find(text, query, start).value;
      Occurrences(text, query, start) == [i] + Occurrences(text, query, i + |query|)
  {
  }

  /** The positions found so far, followed by the occurrences from `start` on, are all the occurrences. */
  ghost predicate FoundSoFar(text: string, query: string, found: seq<nat>, start: nat)
    requires query != [] && start <= |text|
  {
    found + Occurrences(text, query, start) == Occurrences(text, query, 0)
  }

  /** One round of the match-position loop keeps FoundSoFar. */
  lemma MatchStep(text: string, query: string, found: seq<nat>, start: nat, i: nat)
    requires query != [] && start <= |text|
    requires FoundSoFar(text, query, found, start)
    requires Find(text, query, start) == Some(i)
    ensures start < i + |query| <= |text|
    ensures FoundSoFar(text, query, found + [i], i + |query|)
  {
    OccurrencesStep(text, query, start);
    AppendAssoc(found, i, Occurrences(text, query, i + |query|));
  }

  /** When Find reports nothing more, the positions found are all the occurrences. */
  lemma MatchDone(text: string, query: string, found: seq<nat>, start: nat)
    requires query != [] && start <= |text|
    requires FoundSoFar(text, query, found, start)
    requires Find(text, query, start).None?
    ensures found == Occurrences(text, query, 0)
  {
    OccurrencesStep(text, query, start);
    assert found + [] == found;
  }

  /** The match-position loop of `search_note_content`. */
  method MatchPositions(textLower: string, queryLower: string) returns (positions: seq<nat>)
    requires queryLower != []
    ensures positions == Occurrences(textLower, queryLower, 0)
  {
    positions := [];
    var start := 0;
    assert [] + Occurrences(textLower, queryLower, 0) == Occurrences(textLower, queryLower, 0);
    while true
      invariant start <= |textLower|
      invariant FoundSoFar(textLower, queryLower, positions, start)
      decreases |textLower| - start
    {
      var index := Find(textLower, queryLower, start);
      if index.None? {
        MatchDone(textLower, queryLower, positions, start);
        return;
      }
      MatchStep(textLower, queryLower, positions, start, index.value);
      positions := positions + [index.value];
      start := index.value + |queryLower|;
    }
  }

  // --------------------------------------------------------------- snippets

  /** The window of a snippet: up to 100 characters either side of the match, clipped to the text. */
  function WindowStart(position: nat): nat
  {
    if position >= SnippetRadius then position - SnippetRadius else 0
  }

  function WindowEnd(textLength: nat, position: nat, queryLength: nat): nat
  {
    if position + queryLength + SnippetRadius <= textLength then position + queryLength + SnippetRadius else textLength
  }

  /** One snippet: the window, with "..." before it when it is cut at the start and after it when cut at the end. */
  function Snippet(text: string, position: nat, queryLength: nat): (r: string)
    requires position <= |text|
  {
    var lo := WindowStart(position);
    var hi := WindowEnd(|text|, position, queryLength);
    (if lo > 0 then "..." else []) + text[lo..hi] + (if hi < |text| then "..." else [])
  }

  /** A snippet shows the match, at a known offset. */
  lemma SnippetHoldsMatch(text: string, position: nat, queryLength: nat)
    requires position + queryLength <= |text|
    ensures var at := (if position > SnippetRadius then 3 else 0) + position - WindowStart(position);
      OccursAt(Snippet(text, position, queryLength), text[position..position + queryLength], at)
  {
    var lo := WindowStart(position);
    var hi := WindowEnd(|text|, position, queryLength);
    var lead: string := if lo > 0 then "..." else [];
    var trail: string := if hi < |text| then "..." else [];
    var w := text[lo..hi];
    SliceOfConcat(lead, w, trail, position - lo, position - lo + queryLength);
    SliceOfSlice(text, lo, hi, position - lo, position - lo + queryLength);
  }

  /** At most 100 characters of context either side of the match, plus the markers. */
  lemma SnippetLength(text: string, position: nat, queryLength: nat)
    requires position <= |text|
    ensures |Snippet(text, position, queryLength)| <= queryLength + 2 * SnippetRadius + 6
  {
  }

  /** The snippet starts with "..." when the window is cut at the front, and with the text itself otherwise. */
  lemma SnippetFront(text: string, position: nat, queryLength: nat)
    requires position + queryLength <= |text|
    ensures position > SnippetRadius ==> StartsWith(Snippet(text, position, queryLength), "...")
    ensures position <= SnippetRadius ==> StartsWith(Snippet(text, position, queryLength), text[..position + queryLength])
  {
    var lo := WindowStart(position);
    var hi := WindowEnd(|text|, position, queryLength);
    var trail: string := if hi < |text| then "..." else [];
    if position <= SnippetRadius {
      SliceOfConcat([], text[lo..hi], trail, 0, position + queryLength);
      SliceOfSlice(text, lo, hi, 0, position + queryLength);
      assert [] + text[lo..hi] + trail == Snippet(text, position, queryLength);
    }
  }

  /** The snippet ends with "..." when the window is cut at the back, and with the rest of the text otherwise. */
  lemma SnippetBack(text: string, position: nat, queryLength: nat)
    requires position + queryLength <= |text|
    ensures position + queryLength + SnippetRadius < |text| ==> EndsWith(Snippet(text, position, queryLength), "...")
    ensures position + queryLength + SnippetRadius >= |text| ==>
      EndsWith(Snippet(text, position, queryLength), text[position..])
  {
    var lo := WindowStart(position);
    var hi := WindowEnd(|text|, position, queryLength);
    var lead: string := if lo > 0 then "..." else [];
    if hi == |text| {
      SuffixSplit(text, lo, position);
      assert Snippet(text, position, queryLength) == (lead + text[lo..position]) + text[position..];
      EndsWithAppend(lead + text[lo..position], text[position..]);
    } else {
      assert Snippet(text, position, queryLength) == (lead + text[lo..hi]) + "...";
      EndsWithAppend(lead + text[lo..hi], "...");
    }
  }

  /** The snippets of a file: one for each of the first three matches. */
  function SnippetsOf(text: string, positions: seq<nat>, queryLength: nat): (r: seq<string>)
    requires forall k :: 0 <= k < |positions| ==> positions[k] <= |text|
  {
    var n := if |positions| < MaxSnippets then |positions| else MaxSnippets;
    seq(n, k requires 0 <= k < n => Snippet(text, positions[k], queryLength))
  }

  /** The snippet loop of `search_note_content`. */
  method Snippets(text: string, positions: seq<nat>, queryLength: nat) returns (snippets: seq<string>)
    requires forall k :: 0 <= k < |positions| ==> positions[k] <= |text|
    ensures |snippets| == if |positions| < MaxSnippets then |positions| else MaxSnippets
    ensures forall k :: 0 <= k < |snippets| ==> snippets[k] == Snippet(text, positions[k], queryLength)
  {
    snippets := [];
    var n := if |positions| < MaxSnippets then |positions| else MaxSnippets;
    for i := 0 to n
      invariant |snippets| == i
      invariant forall k :: 0 <= k < i ==> snippets[k] == Snippet(text, positions[k], queryLength)
    {
      snippets := snippets + [Snippet(text, positions[i], queryLength)];
    }
  }

  // ----------------------------------------------------------- content search

  /** What one file contributes: nothing for an empty text or no match, else its path, count and snippets. */
  function ContentMatch(file: NoteFile, query: string): (r: Option<FileMatch>)
    requires query != []
    ensures r.Some? ==> file.text != [] && r.value.matchCount >= 1 && 1 <= |r.value.snippets| <= MaxSnippets
    ensures r.Some? ==> r.value.matchCount == |Occurrences(Lower(file.text), Lower(query), 0)|
    ensures file.text != [] && Occurrences(Lower(file.text), Lower(query), 0) != [] ==> r.Some?
  {
    if file.text == [] then None
    else
      var positions := Occurrences(Lower(file.text), Lower(query), 0);
      if positions == [] then None
      else Some(FileMatch(JoinWith(file.path, "/"), |positions|, SnippetsOf(file.text, positions, |query|)))
  }

  /** The content match of a file, as the walk picks it. */
  function ContentPick(query: string): NoteFile -> Option<FileMatch>
    requires query != []
  {
    file => ContentMatch(file, query)
  }

  /** The results of the walk, in walk order, before ranking. */
  function ContentMatches(files: seq<NoteFile>, query: string): (r: seq<FileMatch>)
    requires query != []
    ensures |r| <= |files|
  {
    Collect(files, ContentPick(query))
  }

  /** A result comes from some file, and every file with a match gives one. */
  lemma ContentMatchesExactly(files: seq<NoteFile>, query: string, m: FileMatch)
    requires query != []
    ensures m in ContentMatches(files, query) <==> exists i :: 0 <= i < |files| && ContentMatch(files[i], query) == Some(m)
  {
    CollectExactly(files, ContentPick(query), m);
  }

  predicate CountDescending(ms: seq<FileMatch>)
  {
    forall i :: 0 < i < |ms| ==> ms[i - 1].matchCount >= ms[i].matchCount
  }

  /** Insertion for the stable sort by descending match count: before the first match with no more matches. */
  function InsertByCount(m: FileMatch, ms: seq<FileMatch>): (r: seq<FileMatch>)
    ensures |r| == |ms| + 1
    ensures multiset(r) == multiset(ms) + multiset{m}
    ensures r[0] == m || (ms != [] && r[0] == ms[0])
  {
    if ms == [] || m.matchCount >= ms[0].matchCount then [m] + ms
    else
      assert ms == [ms[0]] + ms[1..];
      [ms[0]] + InsertByCount(m, ms[1..])
  }

  /** `results.sort(key=match_count, reverse=True)`. */
  function SortByCount(ms: seq<FileMatch>): (r: seq<FileMatch>)
    ensures multiset(r) == multiset(ms)
    ensures |r| == |ms|
  {
    if ms == [] then []
    else
      assert ms == [ms[0]] + ms[1..];
      InsertByCount(ms[0], SortByCount(ms[1..]))
  }

  lemma {:induction false} InsertByCountDescending(m: FileMatch, ms: seq<FileMatch>)
    requires CountDescending(ms)
    ensures CountDescending(InsertByCount(m, ms))
  {
    if ms != [] && m.matchCount < ms[0].matchCount {
      InsertByCountDescending(m, ms[1..]);
    }
  }

  /** The ranking is ordered by match count, most first, and keeps every result. */
  lemma {:induction false} SortByCountDescending(ms: seq<FileMatch>)
    ensures CountDescending(SortByCount(ms)) && multiset(SortByCount(ms)) == multiset(ms)
  {
    if ms != [] {
      SortByCountDescending(ms[1..]);
      InsertByCountDescending(ms[0], SortByCount(ms[1..]));
    }
  }

  function Take(ms: seq<FileMatch>, n: nat): (r: seq<FileMatch>)
    ensures |r| <= n && |r| <= |ms| && r == ms[..|r|]
    ensures |ms| <= n ==> r == ms
    ensures |ms| > n ==> |r| == n
  {
    if |ms| <= n then ms else ms[..n]
  }

  /**
   * `search_note_content`: refuse a blank query; otherwise the matches of
   * the stripped query, ranked by count and cut to ten.
   */
  function NoteContentResults(query: string, files: seq<NoteFile>): (r: Result<seq<FileMatch>, SearchError>)
  {
    var trimmed := Strip(query);
    if trimmed == [] then Err(EmptyQuery)
    else Ok(Take(SortByCount(ContentMatches(files, trimmed)), MaxResults))
  }

  /** The content search refuses exactly the blank queries. */
  lemma NoteContentRefusesBlank(query: string, files: seq<NoteFile>)
    ensures NoteContentResults(query, files).Err? <==> IsBlank(query)
  {
    StripEmptyIffBlank(query);
  }

  /**
   * The content search gives at most ten results, ranked by count, each the
   * match of some file; every match left out has no more occurrences than
   * the last one kept.
   */
  lemma NoteContentRanked(query: string, files: seq<NoteFile>)
    requires !IsBlank(query)
    ensures Strip(query) != [] && NoteContentResults(query, files).Ok?
    ensures var all := ContentMatches(files, Strip(query));
      |NoteContentResults(query, files).value| == if |all| <= MaxResults then |all| else MaxResults
    ensures var r := NoteContentResults(query, files).value;
      |r| <= MaxResults && CountDescending(r) && multiset(r) <= multiset(ContentMatches(files, Strip(query)))
    ensures var r := NoteContentResults(query, files).value;
      r != [] ==> forall m :: m in multiset(ContentMatches(files, Strip(query))) - multiset(r) ==>
        m.matchCount <= r[|r| - 1].matchCount
  {
    StripEmptyIffBlank(query);
    var all := ContentMatches(files, Strip(query));
    SortByCountDescending(all);
    TopOfRanking(SortByCount(all), MaxResults);
  }

  /** Cutting a ranking keeps it ranked, and keeps only what was ranked. */
  lemma TopOfRanking(sorted: seq<FileMatch>, n: nat)
    requires CountDescending(sorted)
    ensures var kept := Take(sorted, n);
      CountDescending(kept) && multiset(kept) <= multiset(sorted)
    ensures var kept := Take(sorted, n);
      kept != [] ==> forall m :: m in multiset(sorted) - multiset(kept) ==> m.matchCount <= kept[|kept| - 1].matchCount
  {
    var kept := Take(sorted, n);
    var dropped := sorted[|kept|..];
    assert sorted == kept + dropped;
    assert multiset(sorted) == multiset(kept) + multiset(dropped);
    if kept != [] {
      DroppedRankLower(sorted, |kept|);
    }
  }

  /** Nothing after a cut beats the last element before it. */
  lemma DroppedRankLower(sorted: seq<FileMatch>, n: nat)
    requires CountDescending(sorted) && 0 < n <= |sorted|
    ensures forall m :: m in multiset(sorted[n..]) ==> m.matchCount <= sorted[n - 1].matchCount
  {
    forall m: FileMatch | m in multiset(sorted[n..])
      ensures m.matchCount <= sorted[n - 1].matchCount
    {
      var k :| 0 <= k < |sorted[n..]| && sorted[n..][k] == m;
      DescendingAt(sorted, n - 1, n + k);
    }
  }

  /** Every result of the content search is the match of one of the files. */
  lemma NoteContentFromFiles(query: string, files: seq<NoteFile>, m: FileMatch)
    requires !IsBlank(query)
    ensures NoteContentResults(query, files).Ok?
    ensures m in NoteContentResults(query, files).value ==>
      m.matchCount >= 1 && exists i :: 0 <= i < |files| && ContentMatch(files[i], Strip(query)) == Some(m)
  {
    NoteContentRanked(query, files);
    var r := NoteContentResults(query, files).value;
    var all := ContentMatches(files, Strip(query));
    ContentMatchesExactly(files, Strip(query), m);
    if m in r {
      assert m in multiset(r);
      assert m in multiset(all);
      var i :| 0 <= i < |files| && ContentMatch(files[i], Strip(query)) == Some(m);
    }
  }

  lemma {:induction false} DescendingAt(ms: seq<FileMatch>, i: nat, j: nat)
    requires CountDescending(ms) && i <= j < |ms|
    ensures ms[i].matchCount >= ms[j].matchCount
    decreases j - i
  {
    if i < j {
      DescendingAt(ms, i, j - 1);
    }
  }

  /** The walk and ranking of `search_note_content`. */
  method SearchNoteContent(query: string, files: seq<NoteFile>) returns (r: Result<seq<FileMatch>, SearchError>)
    ensures r == NoteContentResults(query, files)
  {
    var trimmed := Strip(query);
    if trimmed == [] {
      return Err(EmptyQuery);
    }
    var queryLower := Lower(trimmed);
    var results: seq<FileMatch> := [];
    for i := 0 to |files|
      invariant results == Collect(files[..i], ContentPick(trimmed))
    {
      assert files[..i + 1][..i] == files[..i];
      var file := files[i];
      if file.text != [] {
        var positions := MatchPositions(Lower(file.text), queryLower);
        if positions != [] {
          var snippets := Snippets(file.text, positions, |trimmed|);
          assert snippets == SnippetsOf(file.text, positions, |trimmed|);
          results := results + [FileMatch(JoinWith(file.path, "/"), |positions|, snippets)];
        }
      }
    }
    assert files[..|files|] == files;
    r := Ok(Take(SortByCount(results), MaxResults));
  }

  // --------------------------------------------------------------- tag search

  /** `[tag.strip().lower() for tag in tags if tag.strip()]`. */
  function NormalizeSearchTags(tags: seq<string>): (r: seq<string>)
    ensures |r| <= |tags|
  {
    if tags == [] then []
    else
      var t := Strip(tags[0]);
      var rest := NormalizeSearchTags(tags[1..]);
      if t == [] then rest else [Lower(t)] + rest
  }

  /** The search tags are the non-blank tags, stripped and lower-cased; none is left exactly when all are blank. */
  lemma {:induction false} NormalizeSearchTagsShape(tags: seq<string>)
    ensures forall k :: 0 <= k < |NormalizeSearchTags(tags)| ==>
      NormalizeSearchTags(tags)[k] != [] && NoUpper(NormalizeSearchTags(tags)[k])
    ensures forall t :: t in tags && !IsBlank(t) ==> Lower(Strip(t)) in NormalizeSearchTags(tags)
    ensures NormalizeSearchTags(tags) == [] <==> forall k :: 0 <= k < |tags| ==> IsBlank(tags[k])
  {
    if tags != [] {
      NormalizeSearchTagsShape(tags[1..]);
      StripEmptyIffBlank(tags[0]);
      LowerHasNoUpper(Strip(tags[0]));
      forall t | t in tags && !IsBlank(t)
        ensures Lower(Strip(t)) in NormalizeSearchTags(tags)
      {
        StripEmptyIffBlank(t);
        if t != tags[0] {
          assert t in tags[1..];
        }
      }
      assert forall k :: 1 <= k < |tags| ==> tags[k] == tags[1..][k - 1];
    }
  }

  /**
   * The search tags keep the order of the tags they come from: normalising a
   * concatenation normalises each part, and one tag gives itself stripped and
   * lower-cased, or nothing when it is blank.
   */
  lemma {:induction false} NormalizeSearchTagsAppend(a: seq<string>, b: seq<string>)
    ensures NormalizeSearchTags(a + b) == NormalizeSearchTags(a) + NormalizeSearchTags(b)
  {
    if a == [] {
      assert a + b == b;
    } else {
      assert (a + b)[0] == a[0] && (a + b)[1..] == a[1..] + b;
      NormalizeSearchTagsAppend(a[1..], b);
    }
  }

  lemma NormalizeSearchTagsOne(t: string)
    ensures NormalizeSearchTags([t]) == if IsBlank(t) then [] else [Lower(Strip(t))]
  {
    StripEmptyIffBlank(t);
    assert [t][1..] == [];
  }

  /** Every search tag comes from a non-blank tag. */
  lemma {:induction false} NormalizeSearchTagsFrom(tags: seq<string>, s: string)
    requires s in NormalizeSearchTags(tags)
    ensures exists k :: 0 <= k < |tags| && !IsBlank(tags[k]) && s == Lower(Strip(tags[k]))
  {
    StripEmptyIffBlank(tags[0]);
    if s != Lower(Strip(tags[0])) || IsBlank(tags[0]) {
      NormalizeSearchTagsFrom(tags[1..], s);
      var k :| 0 <= k < |tags[1..]| && !IsBlank(tags[1..][k]) && s == Lower(Strip(tags[1..][k]));
      assert tags[k + 1] == tags[1..][k];
    }
  }

  /** Python's str() of a tag value: a string is itself, anything else is shown by the parameter. */
  function Shown(v: Frontmatter.Value, show: Frontmatter.Value -> string): string
  {
    if v.Str? then v.s else show(v)
  }

  /**
   * `note_tags`: a string field becomes one stripped tag, a list field its
   * elements shown and stripped, a missing field no tags; any other value
   * skips the note (None).
   */
  function NoteTags(metadata: seq<Frontmatter.Entry>, show: Frontmatter.Value -> string): (r: Option<seq<string>>)
    ensures Frontmatter.Lookup(metadata, Frontmatter.Name("tags")).None? ==> r == Some([])
    ensures var field := Frontmatter.Lookup(metadata, Frontmatter.Name("tags"));
      field.Some? ==> (r.Some? <==> field.value.Str? || field.value.List?)
    ensures var field := Frontmatter.Lookup(metadata, Frontmatter.Name("tags"));
      field.Some? && field.value.Str? ==> r == Some([Strip(field.value.s)])
    ensures var field := Frontmatter.Lookup(metadata, Frontmatter.Name("tags"));
      field.Some? && field.value.List? ==>
        && |r.value| == |field.value.items|
        && forall k :: 0 <= k < |r.value| ==> r.value[k] == Strip(Shown(field.value.items[k], show))
  {
    match Frontmatter.Lookup(metadata, Frontmatter.Name("tags"))
    case None => Some([])
    case Some(v) =>
      if v.Str? then Some([Strip(v.s)])
      else if v.List? then Some(seq(|v.items|, k requires 0 <= k < |v.items| => Strip(Shown(v.items[k], show))))
      else None
  }

  /** `[tag.lower() for tag in note_tags if tag]`. */
  function NormalizeNoteTags(noteTags: seq<string>): (r: seq<string>)
    ensures |r| <= |noteTags|
    ensures forall t :: t in r <==> exists k :: 0 <= k < |noteTags| && noteTags[k] != [] && t == Lower(noteTags[k])
  {
    if noteTags == [] then []
    else
      var rest := NormalizeNoteTags(noteTags[1..]);
      assert forall k :: 1 <= k < |noteTags| ==> noteTags[k] == noteTags[1..][k - 1];
      if noteTags[0] == [] then rest else [Lower(noteTags[0])] + rest
  }

  /** match_all: every search tag is a note tag; otherwise some search tag is. */
  predicate TagsMatch(searchTags: seq<string>, noteTags: seq<string>, matchAll: bool)
  {
    if matchAll then forall s :: s in searchTags ==> s in noteTags
    else exists s :: s in searchTags && s in noteTags
  }

  /** The normalised tags of a note that has frontmatter, parses, and has a string or list field. */
  function NoteTagSet(file: NoteFile, parse: string -> Option<seq<Frontmatter.Entry>>,
                      show: Frontmatter.Value -> string): Option<seq<string>>
  {
    if !StartsWith(LStrip(file.text, IsSpace), "---") then None
    else match parse(file.text)
      case None => None
      case Some(metadata) =>
        match NoteTags(metadata, show)
        case None => None
        case Some(tags) => Some(NormalizeNoteTags(tags))
  }

  /** Whether the tag search lists a note. */
  predicate Tagged(file: NoteFile, searchTags: seq<string>, matchAll: bool,
                   parse: string -> Option<seq<Frontmatter.Entry>>, show: Frontmatter.Value -> string)
  {
    var tags := NoteTagSet(file, parse, show);
    tags.Some? && tags.value != [] && TagsMatch(searchTags, tags.value, matchAll)
  }

  /** The name a tag search reports: the path without the last component's suffix, '/'-joined. */
  function TagResultName(path: seq<string>): string
  {
    if path == [] then []
    else JoinWith(path[..|path| - 1] + [VaultPaths.WithoutSuffix(path[|path| - 1])], "/")
  }

  /** The name of a file the tag search lists, or None when it is not listed. */
  function TagPick(searchTags: seq<string>, matchAll: bool,
                   parse: string -> Option<seq<Frontmatter.Entry>>, show: Frontmatter.Value -> string): NoteFile -> Option<string>
  {
    file => if Tagged(file, searchTags, matchAll, parse, show) then Some(TagResultName(file.path)) else None
  }

  /** What a walk collects: the picked values, in walk order. */
  function Collect<T, U>(xs: seq<T>, pick: T -> Option<U>): (r: seq<U>)
    ensures |r| <= |xs|
  {
    if xs == [] then []
    else
      var rest := Collect(xs[..|xs| - 1], pick);
      match pick(xs[|xs| - 1])
      case None => rest
      case Some(u) => rest + [u]
  }

  /** A value is collected exactly when it is picked from some element. */
  lemma {:induction false} CollectExactly<T, U>(xs: seq<T>, pick: T -> Option<U>, u: U)
    ensures u in Collect(xs, pick) <==> exists i :: 0 <= i < |xs| && pick(xs[i]) == Some(u)
  {
    if xs != [] {
      var init := xs[..|xs| - 1];
      CollectExactly(init, pick, u);
      assert forall i :: 0 <= i < |init| ==> init[i] == xs[i];
    }
  }

  /** The names of the listed notes, in walk order. */
  function TaggedNames(files: seq<NoteFile>, searchTags: seq<string>, matchAll: bool,
                       parse: string -> Option<seq<Frontmatter.Entry>>, show: Frontmatter.Value -> string): (r: seq<string>)
    ensures |r| <= |files|
  {
    Collect(files, TagPick(searchTags, matchAll, parse, show))
  }

  /** A name is listed exactly when some file with that name is tagged. */
  lemma TaggedNamesExactly(files: seq<NoteFile>, searchTags: seq<string>, matchAll: bool,
                           parse: string -> Option<seq<Frontmatter.Entry>>,
                           show: Frontmatter.Value -> string, x: string)
    ensures x in TaggedNames(files, searchTags, matchAll, parse, show) <==>
      exists i :: 0 <= i < |files| && Tagged(files[i], searchTags, matchAll, parse, show) && TagResultName(files[i].path) == x
  {
    var pick := TagPick(searchTags, matchAll, parse, show);
    CollectExactly(files, pick, x);
    assert forall i :: 0 <= i < |files| ==>
      (pick(files[i]) == Some(x) <==> Tagged(files[i], searchTags, matchAll, parse, show) && TagResultName(files[i].path) == x);
  }

  /**
   * `search_notes_by_tags` without metadata: refuse when no tag is
   * non-blank, otherwise the names of the tagged notes, sorted.
   */
  function TagSearchResults(tags: seq<string>, files: seq<NoteFile>, matchAll: bool,
                            parse: string -> Option<seq<Frontmatter.Entry>>,
                            show: Frontmatter.Value -> string): (r: Result<seq<string>, SearchError>)
  {
    if tags == [] || forall k :: 0 <= k < |tags| ==> IsBlank(tags[k]) then Err(NoSearchTags)
    else Ok(Frontmatter.SortStrings(TaggedNames(files, NormalizeSearchTags(tags), matchAll, parse, show)))
  }

  /** The walk of `search_notes_by_tags`. */
  method SearchNotesByTags(tags: seq<string>, files: seq<NoteFile>, matchAll: bool,
                           parse: string -> Option<seq<Frontmatter.Entry>>,
                           show: Frontmatter.Value -> string) returns (r: Result<seq<string>, SearchError>)
    ensures r == TagSearchResults(tags, files, matchAll, parse, show)
  {
    if tags == [] || forall k :: 0 <= k < |tags| ==> IsBlank(tags[k]) {
      return Err(NoSearchTags);
    }
    var searchTags := NormalizeSearchTags(tags);
    var matches: seq<string> := [];
    for i := 0 to |files|
      invariant matches == Collect(files[..i], TagPick(searchTags, matchAll, parse, show))
    {
      assert files[..i + 1][..i] == files[..i];
      var file := files[i];
      var noteTags := NoteTagSet(file, parse, show);
      if noteTags.Some? && noteTags.value != [] && TagsMatch(searchTags, noteTags.value, matchAll) {
        matches := matches + [TagResultName(file.path)];
      }
    }
    assert files[..|files|] == files;
    r := Ok(Frontmatter.SortStrings(matches));
  }

  /**
   * The tag search refuses exactly when every tag is blank; otherwise its
   * names are sorted and are exactly the names of the tagged notes.
   */
  lemma TagSearchShape(tags: seq<string>, files: seq<NoteFile>, matchAll: bool,
                       parse: string -> Option<seq<Frontmatter.Entry>>, show: Frontmatter.Value -> string, x: string)
    ensures TagSearchResults(tags, files, matchAll, parse, show).Err? <==> NormalizeSearchTags(tags) == []
    ensures var r := TagSearchResults(tags, files, matchAll, parse, show);
      r.Ok? ==> (Frontmatter.Sorted(r.value) &&
                 (x in r.value <==> exists i :: (0 <= i < |files| &&
                    Tagged(files[i], NormalizeSearchTags(tags), matchAll, parse, show) && TagResultName(files[i].path) == x)))
  {
    NormalizeSearchTagsShape(tags);
    var names := TaggedNames(files, NormalizeSearchTags(tags), matchAll, parse, show);
    Frontmatter.SortStringsSorted(names);
    TaggedNamesExactly(files, NormalizeSearchTags(tags), matchAll, parse, show, x);
    assert x in Frontmatter.SortStrings(names) <==> x in multiset(names);
  }

  /** A note listed when all tags are required is listed by a search for any single one of them. */
  lemma AllWithinEach(file: NoteFile, searchTags: seq<string>, s: string,
                      parse: string -> Option<seq<Frontmatter.Entry>>, show: Frontmatter.Value -> string)
    requires s in searchTags && Tagged(file, searchTags, true, parse, show)
    ensures Tagged(file, [s], false, parse, show)
  {
    assert s in [s];
  }

  /** A note listed when any tag suffices is listed by a search for one of the tags alone. */
  lemma AnyWithinUnion(file: NoteFile, searchTags: seq<string>,
                       parse: string -> Option<seq<Frontmatter.Entry>>, show: Frontmatter.Value -> string)
    requires Tagged(file, searchTags, false, parse, show)
    ensures exists s :: s in searchTags && Tagged(file, [s], false, parse, show)
  {
    var tags := NoteTagSet(file, parse, show).value;
    var s :| s in searchTags && s in tags;
    assert s in [s];
    assert Tagged(file, [s], false, parse, show);
  }

  /** With search tags present, requiring all of them lists no note that any one of them would not. */
  lemma AllWithinAny(file: NoteFile, searchTags: seq<string>,
                     parse: string -> Option<seq<Frontmatter.Entry>>, show: Frontmatter.Value -> string)
    requires searchTags != [] && Tagged(file, searchTags, true, parse, show)
    ensures Tagged(file, searchTags, false, parse, show)
  {
    assert searchTags[0] in searchTags;
  }

  /** A note whose text does not start with "---" after white space is never listed. */
  lemma NoFrontmatterNotTagged(file: NoteFile, searchTags: seq<string>, matchAll: bool,
                               parse: string -> Option<seq<Frontmatter.Entry>>, show: Frontmatter.Value -> string)
    requires !StartsWith(LStrip(file.text, IsSpace), "---")
    ensures !Tagged(file, searchTags, matchAll, parse, show)
  {
  }

  /** A note whose tags are all blank, or that has none, is never listed. */
  lemma BlankTagsNotTagged(file: NoteFile, searchTags: seq<string>, matchAll: bool,
                           parse: string -> Option<seq<Frontmatter.Entry>>, show: Frontmatter.Value -> string,
                           metadata: seq<Frontmatter.Entry>, noteTags: seq<string>)
    requires parse(file.text) == Some(metadata) && NoteTags(metadata, show) == Some(noteTags)
    requires forall k :: 0 <= k < |noteTags| ==> noteTags[k] == []
    ensures !Tagged(file, searchTags, matchAll, parse, show)
  {
    NormalizeBlankNoteTags(noteTags);
  }

  lemma {:induction false} NormalizeBlankNoteTags(noteTags: seq<string>)
    requires forall k :: 0 <= k < |noteTags| ==> noteTags[k] == []
    ensures NormalizeNoteTags(noteTags) == []
  {
    if noteTags != [] {
      NormalizeBlankNoteTags(noteTags[1..]);
    }
  }
}
