/**
 * Note paths of vault_operations.py: building the relative path of a note
 * from its identifier, the deprecated validating wrapper and the monolith's
 * own normaliser, the sandbox check of path resolution, and the display name
 * that turns a path back into an identifier.
 *
 * A path is the sequence of its components, as pathlib keeps them: joining
 * drops empty and "." components and keeps "..", and a component never
 * contains '/'. An absolute path starts with the component "/".
 */
module VaultPaths {
  import opened Text
  import opened Wrappers

  datatype PathError =
    | EmptyTitle
    | NoValidSegment
    | DotSegment
    | NotRelative
    | EscapesVault
    | NotUnderVault

  predicate IsAbsolute(p: seq<string>)
  {
    p != [] && p[0] == "/"
  }

  /** No component holds a '/'; so in particular the path is not absolute. */
  predicate SlashFree(p: seq<string>)
  {
    forall i, k :: 0 <= i < |p| && 0 <= k < |p[i]| ==> p[i][k] != '/'
  }

  /** `Path(*segments)` for '/'-free segments: empty and "." segments are dropped. */
  function PathParts(segments: seq<string>): (p: seq<string>)
    ensures |p| <= |segments|
    ensures forall i :: 0 <= i < |p| ==> p[i] != "" && p[i] != "."
    ensures (forall i :: 0 <= i < |segments| ==> segments[i] != "" && segments[i] != ".") ==> p == segments
    ensures forall i :: 0 <= i < |p| ==> p[i] in segments
  {
    if segments == [] then []
    else if segments[0] == "" || segments[0] == "." then PathParts(segments[1..])
    else [segments[0]] + PathParts(segments[1..])
  }

  /**
   * `construct_note_path`: the identifier split on '/', the last segment
   * given the ".md" extension, the others kept in order as folders. No
   * validation happens here.
   */
  function ConstructNotePath(identifier: string): (p: seq<string>)
    ensures p != [] && p[|p| - 1] == Split(identifier, '/')[|Split(identifier, '/')| - 1] + ".md"
    ensures SlashFree(p) && !IsAbsolute(p)
  {
    var parts := Split(identifier, '/');
    var leaf := parts[|parts| - 1];
    var folders := PathParts(parts[..|parts| - 1]);
    assert forall i :: 0 <= i < |folders| ==> folders[i] in parts;
    var p := folders + [leaf + ".md"];
    assert forall i :: 0 <= i < |p| - 1 ==> p[i] == folders[i];
    p
  }

  /** An identifier whose '/'-segments are all non-empty and not "." maps to exactly those segments. */
  lemma ConstructPlainSegments(identifier: string)
    requires forall i :: 0 <= i < |Split(identifier, '/')| ==>
      (Split(identifier, '/')[i] != "" && Split(identifier, '/')[i] != ".")
    ensures var parts := Split(identifier, '/');
      ConstructNotePath(identifier) == parts[..|parts| - 1] + [parts[|parts| - 1] + ".md"]
  {
  }

  /**
   * The first steps of `normalize_note_identifier`: strip white space (None
   * when nothing is left, the empty-title error) and drop one trailing
   * ".md", matched case-sensitively.
   */
  function CoreStem(identifier: string): (r: Option<string>)
  {
    var cleaned := Strip(identifier);
    if cleaned == [] then None
    else Some(if EndsWith(cleaned, ".md") then cleaned[..|cleaned| - 3] else cleaned)
  }

  /**
   * `normalize_note_identifier` (deprecated wrapper): reject an empty title
   * and "." or ".." segments, then construct the path. Its absolute-path
   * check can never fire: a constructed path never starts at the root.
   */
  function NormalizeNoteIdentifier(identifier: string): (r: Result<seq<string>, PathError>)
    ensures r.Ok? ==> !IsAbsolute(r.value) && SlashFree(r.value)
    ensures r.Err? ==> r.error in {EmptyTitle, DotSegment}
  {
    match CoreStem(identifier)
    case None => Err(EmptyTitle)
    case Some(stem) =>
      if HasDotSegment(Split(stem, '/')) then Err(DotSegment)
      else
        var relative := ConstructNotePath(stem);
        if IsAbsolute(relative) then Err(NotRelative) else Ok(relative)
  }

  /** The empty-title error is raised exactly for blank identifiers. */
  lemma NormalizeEmptyIffBlank(identifier: string)
    ensures NormalizeNoteIdentifier(identifier) == Err(EmptyTitle) <==> IsBlank(identifier)
  {
    StripEmptyIffBlank(identifier);
  }

  /**
   * A non-blank identifier is refused exactly when its stem has a "." or
   * ".." segment, and is otherwise the constructed path of the stem.
   */
  lemma NormalizeRejectsDotSegments(identifier: string)
    requires !IsBlank(identifier)
    ensures CoreStem(identifier).Some?
    ensures var stem := CoreStem(identifier).value;
      NormalizeNoteIdentifier(identifier)
      == if HasDotSegment(Split(stem, '/')) then Err(DotSegment) else Ok(ConstructNotePath(stem))
  {
    StripEmptyIffBlank(identifier);
  }

  /** "X" and "X.md" name the same note. */
  lemma NormalizeIgnoresMdSuffix(x: string)
    requires x != [] && !IsSpace(x[0]) && !IsSpace(x[|x| - 1]) && !EndsWith(x, ".md")
    ensures NormalizeNoteIdentifier(x + ".md") == NormalizeNoteIdentifier(x)
  {
    var y := x + ".md";
    assert CoreStem(y) == Some(x) by {
      assert y[0] == x[0] && y[|y| - 1] == 'd';
      StripOfTrimmed(y);
      assert EndsWith(y, ".md") && y[..|y| - 3] == x;
    }
    assert CoreStem(x) == Some(x) by {
      StripOfTrimmed(x);
    }
  }

  // ------------------------------------------------- the monolith's variant

  /** `[segment.strip() for segment in segments if segment.strip()]`. */
  function StrippedSegments(segments: seq<string>): (r: seq<string>)
    ensures |r| <= |segments|
  {
    if segments == [] then []
    else
      var s := Strip(segments[0]);
      if s == [] then StrippedSegments(segments[1..]) else [s] + StrippedSegments(segments[1..])
  }

  /** A segment the monolith keeps as it is: non-empty, no white space at its ends, not "." or "..". */
  predicate CleanSegment(s: string)
  {
    s != [] && !IsSpace(s[0]) && !IsSpace(s[|s| - 1]) && s != "." && s != ".."
  }

  /** Every kept segment is stripped and non-empty. */
  lemma {:induction false} StrippedSegmentsAreStripped(segments: seq<string>)
    ensures forall i :: 0 <= i < |StrippedSegments(segments)| ==>
      (StrippedSegments(segments)[i] != [] && Strip(StrippedSegments(segments)[i]) == StrippedSegments(segments)[i])
  {
    if segments != [] {
      StrippedSegmentsAreStripped(segments[1..]);
      var s := Strip(segments[0]);
      StripTrimsEnds(segments[0]);
      StripOfTrimmed(s);
    }
  }

  /** Clean segments pass through unchanged. */
  lemma {:induction false} StrippedSegmentsOfClean(segments: seq<string>)
    requires forall i :: 0 <= i < |segments| ==> CleanSegment(segments[i])
    ensures StrippedSegments(segments) == segments
  {
    if segments != [] {
      StripOfTrimmed(segments[0]);
      StrippedSegmentsOfClean(segments[1..]);
    }
  }

  /** `cleaned.lower().endswith(".md")`: the suffix ".md" in any letter case. */
  predicate EndsWithMdAnyCase(s: string)
  {
    |s| >= 3 && s[|s| - 3] == '.' && LowerChar(s[|s| - 2]) == 'm' && LowerChar(s[|s| - 1]) == 'd'
  }

  /** The first steps of the monolith's normaliser: strip, and drop one ".md" in any letter case. */
  function LegacyStem(identifier: string): (r: Option<string>)
  {
    var cleaned := Strip(identifier);
    if cleaned == [] then None
    else Some(if EndsWithMdAnyCase(cleaned) then cleaned[..|cleaned| - 3] else cleaned)
  }

  /**
   * The segment half of the monolith's normaliser: strip every segment of
   * the stem and drop the empty ones, reject when none is left or one is "."
   * or "..", and give the last segment a lower-case ".md".
   */
  function LegacySegmentsPath(stem: string): (r: Result<seq<string>, PathError>)
    ensures r.Ok? ==> r.value != [] && EndsWith(r.value[|r.value| - 1], ".md")
    ensures r.Ok? ==> !HasDotSegment(r.value)
    ensures var ps := StrippedSegments(Split(stem, '/'));
      r.Ok? <==> ps != [] && !HasDotSegment(ps)
  {
    LegacySplitNotAbsolute(stem);
    LegacyPathOfSegments(Split(stem, '/'))
  }

  /** The segment half on the segments of the stem. */
  function LegacyPathOfSegments(segments: seq<string>): (r: Result<seq<string>, PathError>)
    ensures r.Ok? ==> r.value != [] && EndsWith(r.value[|r.value| - 1], ".md")
    ensures r.Ok? ==> !HasDotSegment(r.value)
    ensures var ps := StrippedSegments(segments);
      r.Ok? ==> ps != [] && r.value == ps[..|ps| - 1] + [ps[|ps| - 1] + ".md"]
    ensures StrippedSegments(segments) == [] ==> r == Err(NoValidSegment)
    ensures StrippedSegments(segments) != [] && HasDotSegment(StrippedSegments(segments)) ==> r == Err(DotSegment)
    ensures r == Err(NotRelative) ==> StrippedSegments(segments) != [] && StrippedSegments(segments)[0] == "/"
  {
    var parts := StrippedSegments(segments);
    if parts == [] then Err(NoValidSegment)
    else if HasDotSegment(parts) then Err(DotSegment)
    else
      StrippedSegmentsAreStripped(segments);
      LegacyPathOfPlain(parts);
      var relative := LegacyPathOf(parts);
      assert |parts| == 1 ==> |relative[0]| > 1;
      assert |parts| > 1 ==> relative[0] == parts[0];
      if IsAbsolute(relative) then Err(NotRelative) else Ok(relative)
  }

  /** The folders kept in order, and the leaf with a lower-case ".md". */
  function LegacyPathOf(parts: seq<string>): (p: seq<string>)
    requires parts != [] && !HasDotSegment(parts)
    ensures p != [] && EndsWith(p[|p| - 1], ".md") && !HasDotSegment(p)
  {
    var leaf := parts[|parts| - 1] + ".md";
    assert leaf[|leaf| - 3..] == ".md";
    var folders := parts[..|parts| - 1];
    assert forall i :: 0 <= i < |folders| ==> folders[i] == parts[i];
    PathParts(folders) + [leaf]
  }

  /**
   * `_normalize_note_identifier` of obsidian_vault.py: reject an empty
   * title, then build the path from the cleaned segments of the stem.
   */
  function NormalizeNoteIdentifierLegacy(identifier: string): (r: Result<seq<string>, PathError>)
    ensures r.Ok? ==> r.value != [] && EndsWith(r.value[|r.value| - 1], ".md") && !HasDotSegment(r.value)
    ensures LegacyStem(identifier).None? ==> r == Err(EmptyTitle)
    ensures LegacyStem(identifier).Some? ==>
      var ps := StrippedSegments(Split(LegacyStem(identifier).value, '/'));
      (r.Ok? <==> ps != [] && !HasDotSegment(ps)) &&
      (r.Ok? ==> r.value == ps[..|ps| - 1] + [ps[|ps| - 1] + ".md"])
  {
    match LegacyStem(identifier)
    case None => Err(EmptyTitle)
    case Some(stem) => LegacySegmentsPath(stem)
  }

  /** Built from non-empty parts, the path is the parts with ".md" after the last. */
  lemma LegacyPathOfPlain(parts: seq<string>)
    requires parts != [] && !HasDotSegment(parts)
    requires forall i :: 0 <= i < |parts| ==> parts[i] != []
    ensures LegacyPathOf(parts) == parts[..|parts| - 1] + [parts[|parts| - 1] + ".md"]
  {
    var folders := parts[..|parts| - 1];
    forall i | 0 <= i < |folders|
      ensures folders[i] != "" && folders[i] != "."
    {
      assert folders[i] == parts[i];
    }
  }

  /** The first kept segment of a split is never "/", so the legacy path is never absolute. */
  lemma LegacySplitNotAbsolute(stem: string)
    ensures var ps := StrippedSegments(Split(stem, '/'));
      ps != [] ==> ps[0] != "/"
  {
    var segments := Split(stem, '/');
    var ps := StrippedSegments(segments);
    if ps != [] {
      StrippedSegmentsFrom(segments, 0);
      var k :| 0 <= k < |segments| && ps[0] == Strip(segments[k]) && Strip(segments[k]) != [];
      StripKeepsAbsent(segments[k], '/');
      assert ps[0][0] != '/';
    }
  }

  /** Stripping and dropping works segment by segment, so the kept segments keep their order. */
  lemma {:induction false} StrippedSegmentsAppend(a: seq<string>, b: seq<string>)
    ensures StrippedSegments(a + b) == StrippedSegments(a) + StrippedSegments(b)
    decreases |a|
  {
    if a == [] {
      assert a + b == b;
    } else {
      assert (a + b)[0] == a[0] && (a + b)[1..] == a[1..] + b;
      StrippedSegmentsAppend(a[1..], b);
    }
  }

  /** One segment is kept stripped, or dropped when it is blank. */
  lemma StrippedSegmentsOne(s: string)
    ensures StrippedSegments([s]) == if Strip(s) == [] then [] else [Strip(s)]
  {
    assert [s][1..] == [];
  }

  /** Every kept segment is the non-empty strip of some input segment. */
  lemma {:induction false} StrippedSegmentsFrom(segments: seq<string>, i: nat)
    requires i < |StrippedSegments(segments)|
    ensures exists k :: 0 <= k < |segments| && StrippedSegments(segments)[i] == Strip(segments[k]) && Strip(segments[k]) != []
    decreases |segments|
  {
    if segments != [] {
      var s := Strip(segments[0]);
      var tail := segments[1..];
      if s != [] && i == 0 {
        assert StrippedSegments(segments)[0] == Strip(segments[0]);
      } else {
        var j := if s == [] then i else i - 1;
        assert StrippedSegments(segments)[i] == StrippedSegments(tail)[j];
        StrippedSegmentsFrom(tail, j);
        var k :| 0 <= k < |tail| && StrippedSegments(tail)[j] == Strip(tail[k]) && Strip(tail[k]) != [];
        assert tail[k] == segments[k + 1];
      }
    }
  }

  /** A non-blank segment is kept, stripped. */
  lemma {:induction false} StrippedSegmentsKeep(segments: seq<string>, i: nat)
    requires i < |segments| && Strip(segments[i]) != []
    ensures Strip(segments[i]) in StrippedSegments(segments)
  {
    if i > 0 {
      assert segments[1..][i - 1] == segments[i];
      StrippedSegmentsKeep(segments[1..], i - 1);
    }
  }

  /** Blank segments are all dropped. */
  lemma {:induction false} StrippedSegmentsOfBlank(segments: seq<string>)
    requires forall i :: 0 <= i < |segments| ==> IsBlank(segments[i])
    ensures StrippedSegments(segments) == []
  {
    if segments != [] {
      StripEmptyIffBlank(segments[0]);
      StrippedSegmentsOfBlank(segments[1..]);
    }
  }

  /**
   * The monolith's normaliser refuses a title one of whose segments is "."
   * or ".." once stripped (" .. " counts as ".."), as a dot segment.
   */
  lemma LegacyRejectsDotSegment(identifier: string, i: nat)
    requires LegacyStem(identifier).Some?
    requires var segments := Split(LegacyStem(identifier).value, '/');
      i < |segments| && (Strip(segments[i]) == "." || Strip(segments[i]) == "..")
    ensures NormalizeNoteIdentifierLegacy(identifier) == Err(DotSegment)
  {
    var segments := Split(LegacyStem(identifier).value, '/');
    StrippedSegmentsKeep(segments, i);
    var parts := StrippedSegments(segments);
    var j :| 0 <= j < |parts| && parts[j] == Strip(segments[i]);
    assert HasDotSegment(parts);
  }

  /** The monolith's normaliser refuses a title whose segments are all blank as having no valid segment. */
  lemma LegacyRejectsBlankSegments(identifier: string)
    requires LegacyStem(identifier).Some?
    requires forall i :: 0 <= i < |Split(LegacyStem(identifier).value, '/')| ==>
      IsBlank(Split(LegacyStem(identifier).value, '/')[i])
    ensures NormalizeNoteIdentifierLegacy(identifier) == Err(NoValidSegment)
  {
    StrippedSegmentsOfBlank(Split(LegacyStem(identifier).value, '/'));
  }

  /** Only '/' and white space. */
  predicate SlashesAndSpaces(s: string)
  {
    forall k :: 0 <= k < |s| ==> s[k] == '/' || IsSpace(s[k])
  }

  /**
   * A title made of '/' and white space only, and not blank (such as "/" or
   * " / / "), is refused as having no valid segment.
   */
  lemma LegacyRejectsOnlySlashes(identifier: string)
    requires !IsBlank(identifier) && SlashesAndSpaces(identifier)
    ensures NormalizeNoteIdentifierLegacy(identifier) == Err(NoValidSegment)
  {
    StripEmptyIffBlank(identifier);
    var stem := Strip(identifier);
    StripKeepsSlashesAndSpaces(identifier);
    assert LegacyStem(identifier) == Some(stem);
    SplitOfSlashesAndSpaces(stem);
    LegacyRejectsBlankSegments(identifier);
  }

  lemma StripKeepsSlashesAndSpaces(s: string)
    requires SlashesAndSpaces(s)
    ensures SlashesAndSpaces(Strip(s))
  {
    var l := LStrip(s, IsSpace);
    LStripSuffix(s, IsSpace);
    RStripPrefix(l, IsSpace);
    var r := Strip(s);
    forall k | 0 <= k < |r|
      ensures r[k] == '/' || IsSpace(r[k])
    {
      assert r[k] == l[k] == s[|s| - |l| + k];
    }
  }

  /** Splitting a string of '/' and white space at '/' leaves blank parts only. */
  lemma {:induction false} SplitOfSlashesAndSpaces(s: string)
    requires SlashesAndSpaces(s)
    ensures forall i :: 0 <= i < |Split(s, '/')| ==> IsBlank(Split(s, '/')[i])
    decreases |s|
  {
    var i := IndexOfFrom(s, '/', 0);
    if i < |s| {
      SplitOfSlashesAndSpaces(s[i + 1..]);
      SplitAt(s, '/', i);
    }
  }

  /** The empty-title error is raised exactly for blank identifiers. */
  lemma LegacyEmptyIffBlank(identifier: string)
    ensures NormalizeNoteIdentifierLegacy(identifier) == Err(EmptyTitle) <==> IsBlank(identifier)
  {
    StripEmptyIffBlank(identifier);
  }

  /** The ".md" suffix is recognised in any letter case: "X.MD" and "X.md" name the same note. */
  lemma LegacyMdSuffixAnyCase(x: string, a: char, b: char)
    requires LowerChar(a) == 'm' && LowerChar(b) == 'd'
    ensures NormalizeNoteIdentifierLegacy(x + ['.', a, b]) == NormalizeNoteIdentifierLegacy(x + ".md")
  {
    var t1: string := ['.', a, b];
    var t2: string := ".md";
    StemOfMdTail(x, t1);
    StemOfMdTail(x, t2);
  }

  /** Any ".md" tail, in any letter case, leaves the front-stripped rest as the stem. */
  lemma StemOfMdTail(x: string, tail: string)
    requires |tail| == 3 && tail[0] == '.' && LowerChar(tail[1]) == 'm' && LowerChar(tail[2]) == 'd'
    ensures LegacyStem(x + tail) == Some(LStrip(x, IsSpace))
  {
    var l := LStrip(x, IsSpace);
    assert tail[2] == 'd' || tail[2] == 'D';
    StripAppend(x, tail);
    var c := l + tail;
    assert c[|c| - 3] == '.' && c[|c| - 2] == tail[1] && c[|c| - 1] == tail[2];
    PrefixOfAppend(l, tail);
  }

  /**
   * "x.md" and "x" name the same note, as long as x is not blank and its
   * strip does not itself end in ".md".
   */
  lemma LegacyIgnoresMdSuffix(x: string)
    requires Strip(x) != [] && !EndsWithMdAnyCase(Strip(x))
    ensures NormalizeNoteIdentifierLegacy(x + ".md") == NormalizeNoteIdentifierLegacy(x)
  {
    StemOfMdTail(x, ".md");
    var l := LStrip(x, IsSpace);
    var t := Strip(x);
    assert LegacyStem(x) == Some(t);
    RStripPrefix(l, IsSpace);
    var w := l[|t|..];
    assert l == t + w;
    assert forall k :: 0 <= k < |w| ==> IsSpace(w[k]) by {
      forall k | 0 <= k < |w|
        ensures IsSpace(w[k])
      {
        assert w[k] == l[|t| + k];
      }
    }
    LegacySpaceTail(t, w);
  }

  /** White space after the stem only pads its last segment, which is stripped anyway. */
  lemma LegacySpaceTail(t: string, w: string)
    requires forall k :: 0 <= k < |w| ==> IsSpace(w[k])
    ensures LegacySegmentsPath(t + w) == LegacySegmentsPath(t)
  {
    SegmentsSpaceTail(t, w);
    LegacyPathOfSameStripped(Split(t + w, '/'), Split(t, '/'));
  }

  /** The segment half only looks at the kept segments. */
  lemma LegacyPathOfSameStripped(a: seq<string>, b: seq<string>)
    requires StrippedSegments(a) == StrippedSegments(b)
    ensures LegacyPathOfSegments(a) == LegacyPathOfSegments(b)
  {
  }

  /** Appending white space changes no kept segment. */
  lemma SegmentsSpaceTail(t: string, w: string)
    requires forall k :: 0 <= k < |w| ==> IsSpace(w[k])
    ensures StrippedSegments(Split(t + w, '/')) == StrippedSegments(Split(t, '/'))
  {
    assert forall k :: 0 <= k < |w| ==> w[k] != '/' by {
      forall k | 0 <= k < |w|
        ensures w[k] != '/'
      {
        assert IsSpace(w[k]);
      }
    }
    SplitAppendNoSeparator(t, w, '/');
    var ps := Split(t, '/');
    var init := ps[..|ps| - 1];
    var last := ps[|ps| - 1];
    assert ps == init + [last];
    StrippedSegmentsAppend(init, [last + w]);
    StrippedSegmentsAppend(init, [last]);
    StrippedSegmentsOne(last + w);
    StrippedSegmentsOne(last);
    StripSpaceTail(last, w);
  }

  lemma PrefixOfAppend<T>(xs: seq<T>, ys: seq<T>)
    ensures (xs + ys)[..|xs + ys| - |ys|] == xs
  {
  }

  /** Clean segments pass the segment half unchanged. */
  lemma LegacySegmentsOfClean(stem: string)
    requires forall i :: 0 <= i < |Split(stem, '/')| ==> CleanSegment(Split(stem, '/')[i])
    ensures var parts := Split(stem, '/');
      LegacySegmentsPath(stem) == Ok(parts[..|parts| - 1] + [parts[|parts| - 1] + ".md"])
  {
    LegacyPathOfClean(Split(stem, '/'));
  }

  lemma LegacyPathOfClean(parts: seq<string>)
    requires parts != [] && forall i :: 0 <= i < |parts| ==> CleanSegment(parts[i])
    requires forall k :: 0 <= k < |parts[0]| ==> parts[0][k] != '/'
    ensures LegacyPathOfSegments(parts) == Ok(parts[..|parts| - 1] + [parts[|parts| - 1] + ".md"])
  {
    StrippedSegmentsOfClean(parts);
    var folders := parts[..|parts| - 1];
    forall i | 0 <= i < |folders|
      ensures folders[i] != "" && folders[i] != "."
    {
      assert folders[i] == parts[i] && CleanSegment(parts[i]);
    }
    assert PathParts(folders) == folders;
    var relative := LegacyPathOf(parts);
    if |parts| == 1 {
      assert relative[0] == parts[0] + ".md";
    } else {
      assert relative[0] == parts[0];
    }
    assert relative[0][0] == parts[0][0];
  }

  /**
   * Clean identifiers keep their segments, dots inside names included: the
   * path is the segments with ".md" after the last.
   */
  lemma LegacyKeepsCleanSegments(identifier: string)
    requires identifier != [] && !IsSpace(identifier[0]) && !IsSpace(identifier[|identifier| - 1])
    requires !EndsWithMdAnyCase(identifier)
    requires forall i :: 0 <= i < |Split(identifier, '/')| ==> CleanSegment(Split(identifier, '/')[i])
    ensures var parts := Split(identifier, '/');
      NormalizeNoteIdentifierLegacy(identifier) == Ok(parts[..|parts| - 1] + [parts[|parts| - 1] + ".md"])
  {
    assert LegacyStem(identifier) == Some(identifier) by {
      StripOfTrimmed(identifier);
    }
    LegacySegmentsOfClean(identifier);
  }

  // ------------------------------------------------------------ resolution

  /**
   * Lexical resolution of a path under an absolute, already resolved base:
   * ".." removes the last component (never the root), "." is skipped.
   */
  function Resolve(base: seq<string>, rel: seq<string>): (p: seq<string>)
    decreases |rel|
  {
    if rel == [] then base
    else if rel[0] == ".." then Resolve(if |base| > 1 then base[..|base| - 1] else base, rel[1..])
    else if rel[0] == "." then Resolve(base, rel[1..])
    else Resolve(base + [rel[0]], rel[1..])
  }

  predicate IsPrefix(a: seq<string>, b: seq<string>)
  {
    |a| <= |b| && b[..|a|] == a
  }

  /**
   * `resolve_note_path`: the constructed path resolved under the vault root,
   * refused unless the result lies inside the root.
   */
  function ResolveNotePath(root: seq<string>, title: string): (r: Result<seq<string>, PathError>)
    ensures r.Ok? ==> IsPrefix(root, r.value) && r.value == Resolve(root, ConstructNotePath(title))
    ensures r.Err? ==> r.error == EscapesVault && !IsPrefix(root, Resolve(root, ConstructNotePath(title)))
  {
    var candidate := Resolve(root, ConstructNotePath(title));
    if IsPrefix(root, candidate) then Ok(candidate) else Err(EscapesVault)
  }

  /** Without ".." components resolution only appends (the "." ones vanish). */
  lemma {:induction false} ResolveWithoutParent(base: seq<string>, rel: seq<string>)
    requires forall i :: 0 <= i < |rel| ==> rel[i] != ".." && rel[i] != "."
    ensures Resolve(base, rel) == base + rel
    decreases |rel|
  {
    if rel != [] {
      ResolveWithoutParent(base + [rel[0]], rel[1..]);
      assert base + [rel[0]] + rel[1..] == base + rel;
    }
  }

  /**
   * A title whose folder segments are never "." or ".." always resolves
   * inside the vault, to root + its path: the last segment cannot do harm,
   * since ".md" is appended to it.
   */
  lemma NoDotTitleStaysInside(root: seq<string>, title: string)
    requires !HasDotSegment(Split(title, '/')[..|Split(title, '/')| - 1])
    ensures ResolveNotePath(root, title) == Ok(root + ConstructNotePath(title))
  {
    var parts := Split(title, '/');
    var p := ConstructNotePath(title);
    var folders := PathParts(parts[..|parts| - 1]);
    var leaf := parts[|parts| - 1] + ".md";
    assert p == folders + [leaf];
    forall i | 0 <= i < |p|
      ensures p[i] != ".." && p[i] != "."
    {
      if i < |folders| {
        assert p[i] == folders[i] && folders[i] in parts[..|parts| - 1];
        var j :| 0 <= j < |parts| - 1 && parts[..|parts| - 1][j] == folders[i];
      } else {
        assert p[i] == leaf && leaf[|leaf| - 1] == 'd';
      }
    }
    ResolveWithoutParent(root, p);
    assert (root + p)[..|root|] == root;
  }

  // ---------------------------------------------------------- display names

  /**
   * `with_suffix("")` on a file name: the part from the last '.' is removed
   * when that '.' is neither the first nor the last character.
   */
  function WithoutSuffix(name: string): (r: string)
    ensures |r| <= |name| && r == name[..|r|]
  {
    var i := LastDot(name, |name|);
    if i.Some? && 0 < i.value < |name| - 1 then name[..i.value] else name
  }

  /** Index of the last '.' in name[..hi]. */
  function LastDot(name: string, hi: nat): (r: Option<nat>)
    requires hi <= |name|
    ensures r.Some? ==> r.value < hi && name[r.value] == '.' && forall k :: r.value < k < hi ==> name[k] != '.'
    ensures r.None? ==> forall k :: 0 <= k < hi ==> name[k] != '.'
  {
    if hi == 0 then None
    else if name[hi - 1] == '.' then Some(hi - 1)
    else LastDot(name, hi - 1)
  }

  /** str(path) with every '\\' replaced by '/'. */
  function SlashJoined(p: seq<string>): string
  {
    Replace(JoinWith(p, "/"), '\\', '/')
  }

  function Replace(s: string, a: char, b: char): (r: string)
    ensures |r| == |s|
    ensures forall k :: 0 <= k < |s| ==> r[k] == (if s[k] == a then b else s[k])
  {
    seq(|s|, k requires 0 <= k < |s| => if s[k] == a then b else s[k])
  }

  /**
   * `note_display_name`: the path relative to the vault root, without the
   * suffix of its last component, joined with '/' and with any '\\' turned
   * into '/'. A path outside the root is an error (relative_to raises).
   */
  function NoteDisplayName(root: seq<string>, path: seq<string>): (r: Result<string, PathError>)
    ensures r.Ok? <==> IsPrefix(root, path)
  {
    if !IsPrefix(root, path) then Err(NotUnderVault)
    else
      var rel := path[|root|..];
      var named := if rel == [] then rel else rel[..|rel| - 1] + [WithoutSuffix(rel[|rel| - 1])];
      Ok(SlashJoined(named))
  }

  /** Joining the pieces of a split gives the string back, for the two join functions. */
  lemma {:induction false} JoinWithIsJoin(parts: seq<string>)
    ensures JoinWith(parts, "/") == Join(parts, '/')
  {
    if |parts| > 1 {
      JoinWithIsJoin(parts[1..]);
    }
  }

  /**
   * The display name undoes the construction: for an identifier whose
   * segments are non-empty, not ".", and free of '\\', the display name of
   * the note's path under any root is the identifier itself.
   */
  lemma DisplayNameInvertsConstruction(root: seq<string>, identifier: string)
    requires forall i :: 0 <= i < |Split(identifier, '/')| ==>
      (Split(identifier, '/')[i] != "" && Split(identifier, '/')[i] != ".")
    requires forall k :: 0 <= k < |identifier| ==> identifier[k] != '\\'
    ensures NoteDisplayName(root, root + ConstructNotePath(identifier)) == Ok(identifier)
  {
    var p := ConstructNotePath(identifier);
    DisplayedPartsAreSegments(identifier);
    SlashJoinedSplit(identifier);
    DisplayNameUnderRoot(root, p);
  }

  /** Dropping the suffix of the constructed leaf gives back the identifier's segments. */
  lemma DisplayedPartsAreSegments(identifier: string)
    requires forall i :: 0 <= i < |Split(identifier, '/')| ==>
      (Split(identifier, '/')[i] != "" && Split(identifier, '/')[i] != ".")
    ensures var p := ConstructNotePath(identifier);
      p[..|p| - 1] + [WithoutSuffix(p[|p| - 1])] == Split(identifier, '/')
  {
    var parts := Split(identifier, '/');
    var p := ConstructNotePath(identifier);
    ConstructPlainSegments(identifier);
    WithoutSuffixOfMd(parts[|parts| - 1]);
    LastReplaced(parts, p, parts[|parts| - 1] + ".md");
  }

  /** Joining the segments with '/' gives the '\\'-free identifier back. */
  lemma SlashJoinedSplit(identifier: string)
    requires forall k :: 0 <= k < |identifier| ==> identifier[k] != '\\'
    ensures SlashJoined(Split(identifier, '/')) == identifier
  {
    JoinWithIsJoin(Split(identifier, '/'));
    JoinSplit(identifier, '/');
    ReplaceAbsent(identifier, '\\', '/');
  }

  /** Putting the old last element back into a sequence whose last element was replaced. */
  lemma LastReplaced<T>(xs: seq<T>, ys: seq<T>, y: T)
    requires xs != [] && ys == xs[..|xs| - 1] + [y]
    ensures ys[..|ys| - 1] + [xs[|xs| - 1]] == xs
  {
    assert ys[..|ys| - 1] == xs[..|xs| - 1];
  }

  /** Under the root, the display name only looks at the path below it. */
  lemma DisplayNameUnderRoot(root: seq<string>, p: seq<string>)
    requires p != []
    ensures NoteDisplayName(root, root + p) == Ok(SlashJoined(p[..|p| - 1] + [WithoutSuffix(p[|p| - 1])]))
  {
    assert (root + p)[..|root|] == root && (root + p)[|root|..] == p;
  }

  lemma ReplaceAbsent(s: string, a: char, b: char)
    requires forall k :: 0 <= k < |s| ==> s[k] != a
    ensures Replace(s, a, b) == s
  {
  }

  /** The display name drops exactly the ".md" the construction added to a non-empty leaf. */
  lemma WithoutSuffixOfMd(leaf: string)
    requires leaf != []
    ensures WithoutSuffix(leaf + ".md") == leaf
  {
    var name := leaf + ".md";
    assert name[|name| - 3] == '.' && name[|name| - 2] == 'm' && name[|name| - 1] == 'd';
    assert LastDot(name, |name|) == Some(|leaf|);
    assert name[..|leaf|] == leaf;
  }
}
