/**
 * The checks and clean-ups the tool inputs go through before any note is
 * touched: note titles, vault names, headings, content, search queries,
 * sort keys, tag lists, folder paths and the two titles of a move. Each
 * validator either returns the cleaned value or names the rule it broke.
 */
module InputModels {
  import opened Text
  import opened Wrappers
  import VaultPaths
  import Search

  /** Which rule an input broke (each a ValueError of the Python validators). */
  datatype InputError =
    | EmptyTitle | DotSegmentTitle | AbsoluteTitle | OnlyMdTitle
    | EmptyVault
    | EmptyHeading | OnlyHashes
    | EmptyContent
    | EmptyQuery
    | BadSortKey(got: string)
    | NoTags | NoValidTags
    | EmptyFolder | DotSegmentFolder | AbsoluteFolder
    | SameTitles

  // ------------------------------------------------------------------ titles

  /**
   * `validate_title`: strip; refuse blank, any "." or ".." segment and a
   * leading '/'; drop one trailing ".md" (case-sensitive) and refuse what is
   * then empty. The segment check looks at the title before ".md" is dropped.
   */
  function ValidateTitle(v: string): (r: Result<string, InputError>)
    ensures r.Ok? ==> r.value != [] && (r.value == Strip(v) || r.value + ".md" == Strip(v))
    ensures r.Ok? ==> !HasDotSegment(Split(Strip(v), '/')) && !StartsWith(Strip(v), "/")
    ensures r.Ok? <==>
      Strip(v) != [] && Strip(v) != ".md" && !HasDotSegment(Split(Strip(v), '/')) && !StartsWith(Strip(v), "/")
    ensures r.Ok? ==> r.value == if EndsWith(Strip(v), ".md") then Strip(v)[..|Strip(v)| - 3] else Strip(v)
    ensures Strip(v) == ".md" ==> r == Err(OnlyMdTitle)
  {
    ValidateCleanedTitle(Strip(v))
  }

  /** The checks of `validate_title` after stripping. */
  function ValidateCleanedTitle(cleaned: string): (r: Result<string, InputError>)
    ensures r.Ok? ==> r.value != [] && (r.value == cleaned || r.value + ".md" == cleaned)
    ensures r.Ok? ==> !HasDotSegment(Split(cleaned, '/')) && !StartsWith(cleaned, "/")
    ensures r.Ok? <==>
      cleaned != [] && cleaned != ".md" && !HasDotSegment(Split(cleaned, '/')) && !StartsWith(cleaned, "/")
    ensures r.Ok? ==> r.value == if EndsWith(cleaned, ".md") then cleaned[..|cleaned| - 3] else cleaned
    ensures cleaned == ".md" ==> r == Err(OnlyMdTitle)
  {
    if cleaned == [] then Err(EmptyTitle)
    else if HasDotSegment(Split(cleaned, '/')) then Err(DotSegmentTitle)
    else if StartsWith(cleaned, "/") then Err(AbsoluteTitle)
    else
      var stem := if EndsWith(cleaned, ".md") then cleaned[..|cleaned| - 3] else cleaned;
      assert EndsWith(cleaned, ".md") ==> stem + ".md" == cleaned;
      if stem == [] then Err(OnlyMdTitle) else Ok(stem)
  }

  /** A title is refused as empty exactly when it is blank. */
  lemma TitleEmptyIffBlank(v: string)
    ensures ValidateTitle(v) == Err(EmptyTitle) <==> IsBlank(v)
  {
    StripEmptyIffBlank(v);
  }

  /**
   * For a clean name x, "x" and "x.md" are the same title: both are accepted
   * and both give x.
   */
  lemma TitleMdOptional(x: string)
    requires x != [] && !IsSpace(x[0]) && !IsSpace(x[|x| - 1])
    requires !HasDotSegment(Split(x, '/')) && x[0] != '/' && !EndsWith(x, ".md")
    ensures ValidateTitle(x) == Ok(x)
    ensures ValidateTitle(x + ".md") == Ok(x)
  {
    StripOfTrimmed(x);
    assert !StartsWith(x, "/") && x != ".md";
    var y := x + ".md";
    assert y[0] == x[0] && y[|y| - 1] == 'd';
    StripOfTrimmed(y);
    assert y[..|y| - 3] == x && y[|y| - 3..] == ".md";
    MdSuffixKeepsSegments(x);
    assert !StartsWith(y, "/") && y != ".md";
  }

  /** Appending ".md" to a title adds no "." or ".." segment. */
  lemma MdSuffixKeepsSegments(x: string)
    requires !HasDotSegment(Split(x, '/'))
    ensures !HasDotSegment(Split(x + ".md", '/'))
  {
    var ps := Split(x, '/');
    SplitAppendNoSeparator(x, ".md", '/');
    var qs := Split(x + ".md", '/');
    forall i | 0 <= i < |qs|
      ensures qs[i] != "." && qs[i] != ".."
    {
      if i < |ps| - 1 {
        assert qs[i] == ps[i];
      } else {
        assert qs[i] == ps[|ps| - 1] + ".md";
        LastOfAppend(ps[|ps| - 1], ".md");
      }
    }
  }

  /**
   * An accepted title always resolves inside the vault, whatever the root:
   * its folder segments were checked, and its last segment gets ".md"
   * appended before resolution. This holds even for "x/...md", which is
   * accepted as "x/.." because the segment check runs before ".md" is dropped.
   */
  lemma ValidatedTitleStaysInside(root: seq<string>, v: string)
    requires ValidateTitle(v).Ok?
    ensures var t := ValidateTitle(v).value;
      VaultPaths.ResolveNotePath(root, t) == Ok(root + VaultPaths.ConstructNotePath(t))
  {
    var t := ValidateTitle(v).value;
    var cleaned := Strip(v);
    var cs := Split(cleaned, '/');
    var ts := Split(t, '/');
    if t == cleaned {
      NoDotSegmentInPrefix(cs, |cs| - 1);
    } else {
      SplitAppendNoSeparator(t, ".md", '/');
      assert cs == ts[..|ts| - 1] + [ts[|ts| - 1] + ".md"];
      assert cs[..|cs| - 1] == ts[..|ts| - 1];
      NoDotSegmentInPrefix(cs, |cs| - 1);
    }
    VaultPaths.NoDotTitleStaysInside(root, t);
  }

  /**
   * A title "folder/...md" passes the checks, since "...md" is not a dot
   * segment, and comes back as "folder/..", which has one.
   */
  lemma DotDotThroughMdSuffix(folder: string)
    requires folder != [] && !IsSpace(folder[0]) && folder[0] != '/' && folder != "." && folder != ".."
    requires forall k :: 0 <= k < |folder| ==> folder[k] != '/'
    ensures ValidateTitle(folder + "/" + "...md") == Ok(folder + "/" + "..")
  {
    DotsMdAccepted(folder, "...md");
    assert "...md"[..2] == "..";
  }

  /** ... and "folder/.." does hold a ".." segment. */
  lemma DotDotSegment(folder: string)
    requires forall k :: 0 <= k < |folder| ==> folder[k] != '/'
    ensures HasDotSegment(Split(folder + "/" + "..", '/'))
  {
    SplitInTwo(folder, "..");
    assert Split(folder + "/" + "..", '/')[1] == "..";
  }

  /** The title checks accept folder + "/" + leaf when leaf is a separator-free non-dot name ending in ".md". */
  lemma DotsMdAccepted(folder: string, leaf: string)
    requires folder != [] && !IsSpace(folder[0]) && folder[0] != '/' && folder != "." && folder != ".."
    requires forall k :: 0 <= k < |folder| ==> folder[k] != '/'
    requires forall k :: 0 <= k < |leaf| ==> leaf[k] != '/'
    requires leaf != "." && leaf != ".." && |leaf| > 3 && leaf[|leaf| - 3..] == ".md"
    ensures ValidateTitle(folder + "/" + leaf) == Ok(folder + "/" + leaf[..|leaf| - 3])
  {
    var v := folder + "/" + leaf;
    assert v[0] == folder[0] && v[|v| - 1] == leaf[|leaf| - 1] == 'd';
    StripOfTrimmed(v);
    SplitInTwo(folder, leaf);
    assert v[|v| - 3..] == leaf[|leaf| - 3..];
    assert v[..|v| - 3] == folder + "/" + leaf[..|leaf| - 3];
    assert !HasDotSegment([folder, leaf]);
    assert !StartsWith(v, "/") && EndsWith(v, ".md");
    assert ValidateCleanedTitle(v) == Ok(folder + "/" + leaf[..|leaf| - 3]);
  }

  /** A string with one '/' splits into the two sides. */
  lemma SplitInTwo(a: string, b: string)
    requires forall k :: 0 <= k < |a| ==> a[k] != '/'
    requires forall k :: 0 <= k < |b| ==> b[k] != '/'
    ensures Split(a + "/" + b, '/') == [a, b]
  {
    var s := a + "/" + b;
    assert s[|a|] == '/';
    assert forall k :: 0 <= k < |a| ==> s[k] == a[k];
    assert IndexOfFrom(s, '/', 0) == |a|;
    assert s[..|a|] == a && s[|a| + 1..] == b;
    SplitWithoutSeparator(b, '/');
  }

  // ------------------------------------------------------------------ vaults

  /** `validate_vault`: absent stays absent, blank is refused, anything else is stripped. */
  function ValidateVault(v: Option<string>): (r: Result<Option<string>, InputError>)
    ensures r.Ok? && r.value.Some? ==> v.Some? && r.value.value != [] && r.value.value == Strip(v.value)
    ensures v.None? ==> r == Ok(None)
    ensures v.Some? && !IsBlank(v.value) ==> r == Ok(Some(Strip(v.value)))
    ensures v.Some? && IsBlank(v.value) ==> r == Err(EmptyVault)
  {
    match v
    case None => Ok(None)
    case Some(s) =>
      StripEmptyIffBlank(s);
      if IsBlank(s) then Err(EmptyVault) else Ok(Some(Strip(s)))
  }

  /** Only a blank name is refused, and validating an accepted name again changes nothing. */
  lemma ValidateVaultIdempotent(v: Option<string>)
    ensures ValidateVault(v).Err? <==> v.Some? && IsBlank(v.value)
    ensures ValidateVault(v).Ok? ==> ValidateVault(ValidateVault(v).value) == ValidateVault(v)
  {
    if v.Some? && !IsBlank(v.value) {
      var t := Strip(v.value);
      StripIdempotent(v.value);
      StripEmptyIffBlank(t);
    }
  }

  // ---------------------------------------------------------------- headings

  /** The characters `validate_heading` removes in front of a heading. */
  predicate IsHashOrSpace(c: char)
  {
    c == '#' || IsSpace(c)
  }

  /**
   * What an accepted heading comes to: the input without its leading run of
   * '#' and white space and without its trailing white space.
   */
  function HeadingText(v: string): string
  {
    RStrip(LStrip(v, IsHashOrSpace), IsSpace)
  }

  /** An accepted heading is non-empty and starts with neither '#' nor white space and ends in no white space. */
  lemma HeadingTextShape(v: string)
    ensures var h := HeadingText(v);
      h == [] <==> forall k :: 0 <= k < |v| ==> IsHashOrSpace(v[k])
    ensures var h := HeadingText(v);
      h != [] ==> !IsHashOrSpace(h[0]) && !IsSpace(h[|h| - 1])
  {
    var l := LStrip(v, IsHashOrSpace);
    LStripSuffix(v, IsHashOrSpace);
    RStripPrefix(l, IsSpace);
    var h := HeadingText(v);
    if l != [] {
      assert !IsSpace(l[0]);
      assert h != [];
      assert h[0] == l[0];
      assert l[0] == v[|v| - |l|];
    }
  }

  /** Cleaning a heading twice is cleaning it once. */
  lemma HeadingTextIdempotent(v: string)
    ensures HeadingText(HeadingText(v)) == HeadingText(v)
  {
    HeadingTextShape(v);
    var h := HeadingText(v);
    if h != [] {
      assert LStrip(h, IsHashOrSpace) == h;
    }
  }

  /** Leading white space and '#' are dropped together, so dropping the white space first changes nothing. */
  lemma {:induction false} LStripSpacesFirst(x: string)
    ensures LStrip(LStrip(x, IsSpace), IsHashOrSpace) == LStrip(x, IsHashOrSpace)
    decreases |x|
  {
    if x != [] && IsSpace(x[0]) {
      LStripSpacesFirst(x[1..]);
    }
  }

  /** Trailing white space does not change the cleaned heading. */
  lemma {:induction false} HeadingIgnoresTrailingSpace(w: string, t: string)
    requires forall k :: 0 <= k < |t| ==> IsSpace(t[k])
    ensures HeadingText(w + t) == HeadingText(w)
    decreases |w|
  {
    if w == [] {
      assert w + t == t;
      LStripAllDropped(t, IsHashOrSpace);
    } else if IsHashOrSpace(w[0]) {
      assert (w + t)[1..] == w[1..] + t;
      HeadingIgnoresTrailingSpace(w[1..], t);
    } else {
      RStripDroppedTail(w, t, IsSpace);
    }
  }

  /** Stripping first does not change the cleaned heading. */
  lemma HeadingTextOfStrip(x: string)
    ensures HeadingText(Strip(x)) == HeadingText(x)
  {
    var u := LStrip(x, IsSpace);
    var w := RStrip(u, IsSpace);
    RStripPrefix(u, IsSpace);
    var t := u[|w|..];
    assert u == w + t;
    HeadingIgnoresTrailingSpace(w, t);
    LStripSpacesFirst(x);
  }

  /**
   * `validate_heading`: strip; refuse blank; drop one '#' and strip again
   * while the text starts with '#'; refuse what is then empty.
   */
  method ValidateHeading(v: string) returns (r: Result<string, InputError>)
    ensures r.Err? <==> forall k :: 0 <= k < |v| ==> IsHashOrSpace(v[k])
    ensures r.Err? ==> r.error == (if IsBlank(v) then EmptyHeading else OnlyHashes)
    ensures r.Ok? ==> r.value == HeadingText(v)
  {
    var cleaned := Strip(v);
    StripEmptyIffBlank(v);
    HeadingTextShape(v);
    if cleaned == [] {
      return Err(EmptyHeading);
    }
    HeadingTextOfStrip(v);
    StripTrimsEnds(v);
    while StartsWith(cleaned, "#")
      invariant HeadingText(cleaned) == HeadingText(v)
      invariant Trimmed(cleaned)
      decreases |cleaned|
    {
      var rest := cleaned[1..];
      assert cleaned[0] == '#';
      HeadingTextOfStrip(rest);
      StripTrimsEnds(rest);
      cleaned := Strip(rest);
    }
    if cleaned != [] {
      assert cleaned[0] != '#';
      assert LStrip(cleaned, IsHashOrSpace) == cleaned;
    }
    if cleaned == [] {
      return Err(OnlyHashes);
    }
    r := Ok(cleaned);
  }

  // ----------------------------------------------------------------- content

  /** Appending, prepending and both section insertions refuse blank content; creating and replacing accept any. */
  datatype ContentRule = NotBlank | MayBeEmpty

  /** The content validators: content is passed on unchanged when accepted. */
  function ValidateContent(rule: ContentRule, v: string): (r: Result<string, InputError>)
    ensures r.Ok? ==> r.value == v
    ensures r.Err? <==> rule == NotBlank && IsBlank(v)
  {
    if rule == NotBlank && IsBlank(v) then Err(EmptyContent) else Ok(v)
  }

  // ------------------------------------------------------------------ search

  /** The query validators: blank is refused, anything else is stripped. */
  function ValidateQuery(v: string): (r: Result<string, InputError>)
    ensures r.Ok? ==> r.value != [] && r.value == Strip(v) && Strip(r.value) == r.value
    ensures r.Err? <==> IsBlank(v)
  {
    StripEmptyIffBlank(v);
    StripIdempotent(v);
    if IsBlank(v) then Err(EmptyQuery) else Ok(Strip(v))
  }

  /** The sort keys the listings accept. */
  const SortKeys: set<string> := {"modified", "created", "size", "name"}

  /** A sort key, stripped and lower-cased, must be one of SortKeys. */
  function SortKey(s: string): (r: Result<string, InputError>)
    ensures r.Ok? ==> r.value in SortKeys && r.value == Lower(Strip(s))
    ensures r.Err? ==> r.error == BadSortKey(Lower(Strip(s))) && Lower(Strip(s)) !in SortKeys
  {
    var t := Lower(Strip(s));
    if t in SortKeys then Ok(t) else Err(BadSortKey(t))
  }

  /** Stripping and lower-casing a key twice is doing it once. */
  lemma SortKeyNormalIdempotent(s: string)
    ensures Lower(Strip(Lower(Strip(s)))) == Lower(Strip(s))
  {
    var t := Strip(s);
    var l := Lower(t);
    StripTrimsEnds(s);
    if t != [] {
      LowerKeepsSpaces(t[0]);
      LowerKeepsSpaces(t[|t| - 1]);
    }
    StripOfTrimmed(l);
    LowerIdempotent(t);
  }

  /** An accepted key is accepted again as itself. */
  lemma SortKeyIdempotent(s: string)
    requires SortKey(s).Ok?
    ensures SortKey(SortKey(s).value) == SortKey(s)
  {
    SortKeyNormalIdempotent(s);
  }

  /** `SearchNotesInput.validate_sort_by`: absent stays absent. */
  function ValidateSortBy(v: Option<string>): (r: Result<Option<string>, InputError>)
    ensures v.None? ==> r == Ok(None)
    ensures v.Some? ==> (r.Ok? <==> Lower(Strip(v.value)) in SortKeys)
    ensures r.Ok? && r.value.Some? ==> r.value.value in SortKeys
  {
    match v
    case None => Ok(None)
    case Some(s) =>
      var k :- SortKey(s);
      Ok(Some(k))
  }

  /** `ListNotesInFolderInput.sort_by`: absent means "modified". */
  function FolderSortBy(v: Option<string>): (r: Result<string, InputError>)
    ensures v.None? ==> r == Ok("modified")
    ensures v.Some? ==> (r.Ok? <==> Lower(Strip(v.value)) in SortKeys)
    ensures v.Some? && r.Ok? ==> r.value == Lower(Strip(v.value))
    ensures v.Some? && r.Err? ==> r.error == BadSortKey(Lower(Strip(v.value)))
    ensures r.Ok? ==> r.value in SortKeys
  {
    match v
    case None => Ok("modified")
    case Some(s) => SortKey(s)
  }

  /** `[tag.strip() for tag in v if tag.strip()]`. */
  function CleanTags(tags: seq<string>): (r: seq<string>)
    ensures |r| <= |tags|
  {
    if tags == [] then []
    else
      var t := Strip(tags[0]);
      if t == [] then CleanTags(tags[1..]) else [t] + CleanTags(tags[1..])
  }

  /**
   * Cleaning keeps the order of the tags: cleaning a concatenation cleans
   * each part, and one tag gives itself stripped, or nothing when it is blank.
   */
  lemma {:induction false} CleanTagsAppend(a: seq<string>, b: seq<string>)
    ensures CleanTags(a + b) == CleanTags(a) + CleanTags(b)
  {
    if a == [] {
      assert a + b == b;
    } else {
      assert (a + b)[0] == a[0] && (a + b)[1..] == a[1..] + b;
      CleanTagsAppend(a[1..], b);
    }
  }

  lemma CleanTagsOne(t: string)
    ensures CleanTags([t]) == if IsBlank(t) then [] else [Strip(t)]
  {
    StripEmptyIffBlank(t);
    assert [t][1..] == [];
  }

  /** Every cleaned tag comes from a non-blank tag. */
  lemma {:induction false} CleanTagsFrom(tags: seq<string>, c: string)
    requires c in CleanTags(tags)
    ensures exists k :: 0 <= k < |tags| && !IsBlank(tags[k]) && c == Strip(tags[k])
  {
    StripEmptyIffBlank(tags[0]);
    if c != Strip(tags[0]) || IsBlank(tags[0]) {
      CleanTagsFrom(tags[1..], c);
      var k :| 0 <= k < |tags[1..]| && !IsBlank(tags[1..][k]) && c == Strip(tags[1..][k]);
      assert tags[k + 1] == tags[1..][k];
    }
  }

  /** The cleaned tags are the stripped non-blank tags, none blank; none is left exactly when all are blank. */
  lemma {:induction false} CleanTagsShape(tags: seq<string>)
    ensures forall k :: 0 <= k < |CleanTags(tags)| ==> CleanTags(tags)[k] != [] && Strip(CleanTags(tags)[k]) == CleanTags(tags)[k]
    ensures forall t :: t in tags && !IsBlank(t) ==> Strip(t) in CleanTags(tags)
    ensures CleanTags(tags) == [] <==> forall k :: 0 <= k < |tags| ==> IsBlank(tags[k])
  {
    if tags != [] {
      CleanTagsShape(tags[1..]);
      StripEmptyIffBlank(tags[0]);
      StripIdempotent(tags[0]);
      forall t | t in tags && !IsBlank(t)
        ensures Strip(t) in CleanTags(tags)
      {
        StripEmptyIffBlank(t);
        if t != tags[0] {
          assert t in tags[1..];
        }
      }
      assert forall k :: 1 <= k < |tags| ==> tags[k] == tags[1..][k - 1];
    }
  }

  /** Validating the tags first does not change the search tags the tag search derives from them. */
  lemma {:induction false} CleanTagsKeepSearchTags(tags: seq<string>)
    ensures Search.NormalizeSearchTags(CleanTags(tags)) == Search.NormalizeSearchTags(tags)
  {
    if tags != [] {
      CleanTagsKeepSearchTags(tags[1..]);
      var t := Strip(tags[0]);
      StripIdempotent(tags[0]);
      if t != [] {
        assert ([t] + CleanTags(tags[1..]))[1..] == CleanTags(tags[1..]);
      }
    }
  }

  /** `validate_tags`: refuse an empty list, then keep the cleaned tags, refusing when none is left. */
  function ValidateTags(tags: seq<string>): (r: Result<seq<string>, InputError>)
    ensures r.Ok? ==> r.value == CleanTags(tags) && r.value != []
    ensures tags == [] ==> r == Err(NoTags)
  {
    if tags == [] then Err(NoTags)
    else
      var cleaned := CleanTags(tags);
      if cleaned == [] then Err(NoValidTags) else Ok(cleaned)
  }

  /** Tags are refused exactly when none is non-blank. */
  lemma ValidateTagsRefusesBlank(tags: seq<string>)
    ensures ValidateTags(tags).Err? <==> forall k :: 0 <= k < |tags| ==> IsBlank(tags[k])
  {
    CleanTagsShape(tags);
  }

  /** `validate_folder_path`: strip; refuse blank, any "." or ".." segment and a leading '/'. */
  function ValidateFolderPath(v: string): (r: Result<string, InputError>)
    ensures r.Ok? ==> r.value == Strip(v) && r.value != []
    ensures r.Ok? ==> !HasDotSegment(Split(r.value, '/')) && r.value[0] != '/'
    ensures Strip(v) != [] && !HasDotSegment(Split(Strip(v), '/')) && Strip(v)[0] != '/' ==> r == Ok(Strip(v))
    ensures Strip(v) != [] && HasDotSegment(Split(Strip(v), '/')) ==> r == Err(DotSegmentFolder)
    ensures Strip(v) != [] && !HasDotSegment(Split(Strip(v), '/')) && Strip(v)[0] == '/' ==> r == Err(AbsoluteFolder)
  {
    var cleaned := Strip(v);
    if cleaned == [] then Err(EmptyFolder)
    else if HasDotSegment(Split(cleaned, '/')) then Err(DotSegmentFolder)
    else if StartsWith(cleaned, "/") then Err(AbsoluteFolder)
    else Ok(cleaned)
  }

  /** A folder path is refused as empty exactly when it is blank. */
  lemma FolderEmptyIffBlank(v: string)
    ensures ValidateFolderPath(v) == Err(EmptyFolder) <==> IsBlank(v)
  {
    StripEmptyIffBlank(v);
  }

  // -------------------------------------------------------------------- move

  /** A validated move: two distinct titles and whether to rewrite links. */
  datatype MoveRequest = MoveRequest(oldTitle: string, newTitle: string, updateLinks: bool)

  /**
   * `MoveNoteInput`: both titles pass the title rules (the old one first),
   * `update_links` defaults to true, and the two cleaned titles must differ.
   */
  function ValidateMove(oldTitle: string, newTitle: string, updateLinks: Option<bool>): (r: Result<MoveRequest, InputError>)
    ensures r.Ok? ==> r.value.oldTitle != r.value.newTitle
    ensures r.Ok? ==> Ok(r.value.oldTitle) == ValidateTitle(oldTitle) && Ok(r.value.newTitle) == ValidateTitle(newTitle)
    ensures r.Ok? ==> r.value.updateLinks == (updateLinks.None? || updateLinks.value)
    ensures ValidateTitle(oldTitle).Err? ==> r == Err(ValidateTitle(oldTitle).error)
    ensures ValidateTitle(oldTitle).Ok? && ValidateTitle(newTitle).Err? ==> r == Err(ValidateTitle(newTitle).error)
    ensures ValidateTitle(oldTitle).Ok? && ValidateTitle(newTitle).Ok? ==>
      (r.Ok? <==> ValidateTitle(oldTitle).value != ValidateTitle(newTitle).value)
    ensures r.Err? && ValidateTitle(oldTitle).Ok? && ValidateTitle(newTitle).Ok? ==> r == Err(SameTitles)
  {
    var o :- ValidateTitle(oldTitle);
    var n :- ValidateTitle(newTitle);
    if o == n then Err(SameTitles)
    else Ok(MoveRequest(o, n, if updateLinks.Some? then updateLinks.value else true))
  }

  /** "A.md" and "A" name the same note, so moving one onto the other is refused. */
  lemma MoveOntoOwnMdName(x: string, updateLinks: Option<bool>)
    requires x != [] && !IsSpace(x[0]) && !IsSpace(x[|x| - 1])
    requires !HasDotSegment(Split(x, '/')) && x[0] != '/' && !EndsWith(x, ".md")
    ensures ValidateMove(x + ".md", x, updateLinks) == Err(SameTitles)
  {
    TitleMdOptional(x);
  }
}
