# obsidian-mcp-server core, modelled in Dafny

obsidian-mcp-server exposes an Obsidian vault (a folder of markdown notes) to
MCP clients. This project models the logic under its tools:

- **Note paths** (`vault_paths.dfy`). A title such as `Projects/Plan` becomes
  the path `Projects/Plan.md` and is resolved under the vault root. Paths that
  leave the root are refused. A path inside the root gets its display name
  back. The normaliser of the single-file server `obsidian_vault.py` is modelled beside the core one.
- **Frontmatter** (`frontmatter.dfy`). Metadata is sanitised (dates become ISO
  strings, keys must be non-blank strings, unsupported types are refused) and
  its size is limited to `MAX_FRONTMATTER_BYTES`. Updates are deep-merged.
  This file also models the update, replace and delete operations.
- **Heading index** (`heading_index.dfy`). `HEADING_PATTERN` is matched
  exactly as its backtracking regular expression does. Each heading gets a
  normalised key. A heading is located by that key, and its section runs to
  the next heading of the same or a higher rank.
- **Section editor** (`section_editor.dfy`). Inserting after a heading,
  appending to a section, replacing a section and deleting one. Deletion
  collapses runs of blank lines.
- **Search** (`search.dfy`):
  - the name filter;
  - the content search: match positions, snippets, ranking by match count, a
    cap of ten results;
  - the tag search, in its any and all modes.
- **Backlinks** (`backlinks.dfy`). The wikilink and markdown-link patterns
  that `move_note` rewrites.
- **Note store** (`note_store.dfy`). A `Vault` class whose `notes` map
  (path to text) is changed by create, replace, append, prepend, delete and
  move. The backlink pass visits every note once.
- **Input validators** (`input_models.dfy`). The Pydantic field validators:
  - titles, vault names and headings;
  - content, queries, sort keys, tags and folder paths;
  - the move request.

`text.dfy` holds the Python string operations the core relies on: `strip`,
`lstrip`, `rstrip`, `lower`, `split` and `find`. `wrappers.dfy` holds
`Option` and `Result`.

The single-file server `obsidian_vault.py` repeats most core helpers and
operations line for line. Those copies are:

| helper or group | lines in `obsidian_vault.py` |
|---|---|
| `_combine_with_newline` | 294-311 |
| frontmatter helpers | 350-442 |
| heading helpers | 513-600 |
| note operations | 602-762, 1057-1224 |
| section operations | 764-1055 |
| searches | 1265-1399, 1469-1556 |
| frontmatter operations | 1581-1707 |

The validators have copies too. `obsidian_vault/input_models.py:51-134`
repeats the title and vault validators of `models/base.py`. The content
validators of `models/section_models.py` (35-44, 86-95, 121-130) follow the
same two rules as those of `models/note_models.py`: blank content is refused,
or empty content is allowed. `InputModels.ValidateContent` models both rules.

Each copy is modelled once, by the member cited below. Two copies differ:

- `_normalize_note_identifier` (220-256) is a different normaliser.
  `VaultPaths.NormalizeNoteIdentifierLegacy` models it.
- `_note_display_name` (280-291) uses `as_posix()` rather than replacing `\`.

Observations the proofs make precise:

- **Absolute-path check in `normalize_note_identifier`.** The check can never
  fire: a constructed path is relative by construction
  (`VaultPaths.NormalizeNoteIdentifier`). The same holds for the check in
  `obsidian_vault.py`'s `_normalize_note_identifier`
  (`VaultPaths.NormalizeNoteIdentifierLegacy`).
- **The `"folder/...md"` title.** `validate_title` accepts it, because
  `"...md"` is not a dot segment. Dropping `.md` then returns `"folder/.."`,
  which has a `..` segment. The title still resolves inside the vault,
  because `.md` is appended to the last segment again before resolution
  (`InputModels.DotDotThroughMdSuffix`, `InputModels.ValidatedTitleStaysInside`).
- **`A` and `A.md`.** They name the same note, so moving one onto the other is
  refused (`InputModels.MoveOntoOwnMdName`).

## Model

| member | source | states |
|---|---|---|
| VaultPaths.ConstructNotePath | obsidian_vault/core/vault_operations.py:20-54 | The path is never empty, never absolute and its components hold no '/'; its last component is the identifier's last '/'-segment with ".md" appended |
| VaultPaths.ConstructPlainSegments | obsidian_vault/core/vault_operations.py:43-54 | An identifier whose segments are all non-empty and not "." maps to exactly those segments, the last one with ".md" |
| VaultPaths.NormalizeNoteIdentifier | obsidian_vault/core/vault_operations.py:57-96 | A normalised path is relative and '/'-free; the only errors are the empty title and a dot segment (the absolute-path error is unreachable) |
| VaultPaths.NormalizeEmptyIffBlank | obsidian_vault/core/vault_operations.py:78-80 | The empty-title error is raised exactly for blank identifiers |
| VaultPaths.NormalizeRejectsDotSegments | obsidian_vault/core/vault_operations.py:83-91 | A non-blank identifier is refused exactly when its stem has a "." or ".." segment, and otherwise gives the constructed path of the stem |
| VaultPaths.NormalizeIgnoresMdSuffix | obsidian_vault/core/vault_operations.py:83-84 | "X" and "X.md" normalise to the same path |
| VaultPaths.StrippedSegmentsAreStripped | obsidian_vault.py:241-243 | Every kept segment is non-empty and already stripped |
| VaultPaths.StrippedSegmentsOfClean | obsidian_vault.py:241-243 | Segments that are clean already pass through unchanged |
| VaultPaths.StrippedSegmentsAppend | obsidian_vault.py:241 | Segments are stripped and dropped one by one: the kept segments of a concatenation are those of each part, in order |
| VaultPaths.StrippedSegmentsOne | obsidian_vault.py:241 | One segment is kept stripped, or dropped when it is blank |
| VaultPaths.StrippedSegmentsFrom | obsidian_vault.py:241 | Every kept segment is the non-empty strip of some input segment |
| VaultPaths.NormalizeNoteIdentifierLegacy | obsidian_vault.py:220-256 | A blank identifier gets the empty-title error. Otherwise the kept segments of the stem (each '/'-segment stripped, blank ones dropped, in order) decide: the path is accepted exactly when some are kept and none is "." or "..", and it is those segments with ".md" after the last. An accepted path is non-empty, has no "." or ".." component and ends in ".md" |
| VaultPaths.LegacyEmptyIffBlank | obsidian_vault.py:234-236 | The monolith's empty-title error is raised exactly for blank identifiers |
| VaultPaths.LegacyMdSuffixAnyCase | obsidian_vault.py:238-239 | The monolith recognises ".md" in any letter case: "X.MD" and "X.md" give the same path |
| VaultPaths.LegacyIgnoresMdSuffix | obsidian_vault.py:234-254 | For a non-blank x whose strip does not already end in ".md", "x.md" and "x" give the same result |
| VaultPaths.LegacyKeepsCleanSegments | obsidian_vault.py:241-254 | A clean identifier keeps its segments, dots inside names included, with ".md" after the last |
| VaultPaths.LegacyRejectsDotSegment | obsidian_vault.py:241-245 | A non-blank identifier whose stem has a segment that strips to "." or ".." is refused with the dot-segment error |
| VaultPaths.LegacyRejectsBlankSegments | obsidian_vault.py:241-243 | A non-blank identifier whose '/'-segments are all blank is refused for having no valid segment |
| VaultPaths.LegacyRejectsOnlySlashes | obsidian_vault.py:234-243 | An identifier made only of '/' and white space, with at least one '/', is refused for having no valid segment rather than as empty |
| VaultPaths.ResolveNotePath | obsidian_vault/core/vault_operations.py:99-132 | The result is the constructed path resolved under the root and lies inside the root; the error is raised exactly when resolution leaves the root |
| VaultPaths.ResolveWithoutParent | obsidian_vault/core/vault_operations.py:124 | Without ".." components, resolution only appends the components, and "." ones vanish |
| VaultPaths.NoDotTitleStaysInside | obsidian_vault/core/vault_operations.py:99-132 | A title whose folder segments are never "." or ".." always resolves inside the vault, to the root followed by its path |
| VaultPaths.NoteDisplayName | obsidian_vault/core/vault_operations.py:135-146 | The display name exists exactly for paths under the root (relative_to fails otherwise) |
| VaultPaths.DisplayNameInvertsConstruction | obsidian_vault/core/vault_operations.py:135-146 | For an identifier with non-empty, non-"." and '\\'-free segments, the display name of its note path under any root is the identifier itself |
| VaultPaths.WithoutSuffixOfMd | obsidian_vault/core/vault_operations.py:146 | with_suffix("") drops exactly the ".md" the construction added to a non-empty leaf |
| Frontmatter.Sanitize | obsidian_vault/core/frontmatter_operations.py:104-118 | Dates and datetimes become their ISO string; an unsupported type is refused with its path and type name |
| Frontmatter.SanitizeOkIff | obsidian_vault/core/frontmatter_operations.py:104-118 | The sanitiser fails exactly on values that hold a blank or non-string key or an unsupported type at any depth |
| Frontmatter.SanitizeSafeIsIdentity | obsidian_vault/core/frontmatter_operations.py:104-118 | Sanitising a value the sanitiser produced changes nothing |
| Frontmatter.SanitizeIsCoerced | obsidian_vault/core/frontmatter_operations.py:104-118 | A sanitisable value is sanitised to its coercion: dates become ISO strings, tuples become lists, everything else is kept, at every depth |
| Frontmatter.SanitizeItemsFirstError | obsidian_vault/core/frontmatter_operations.py:109-110 | A list fails with the error of its first failing item, raised at that item's "[index]" path |
| Frontmatter.SanitizeEntriesFirstError | obsidian_vault/core/frontmatter_operations.py:111-117 | A nested dictionary fails at its first bad entry: a blank or non-string key is refused at the dictionary's path, a bad value with the error raised at "path.key" |
| Frontmatter.SanitizeListNamesIndex | obsidian_vault/core/frontmatter_operations.py:109-118 | An unsupported item of a list is reported with its "[index]" path and its type name |
| Frontmatter.SanitizeMapNamesKey | obsidian_vault/core/frontmatter_operations.py:111-118 | A bad key of a nested dictionary is reported with the key; an unsupported value with its "path.key" path and its type name |
| Frontmatter.SanitizeTop | obsidian_vault/core/frontmatter_operations.py:120-124 | The top-level loop succeeds exactly when every key is a non-blank string and every value is sanitisable; it then keeps every key, in order, with its value coerced (dates to ISO strings, tuples to lists, at every depth) |
| Frontmatter.SanitizeTopErrSticks | obsidian_vault/core/frontmatter_operations.py:120-124 | The first failing entry's error is the one reported |
| Frontmatter.SanitizeTopFirstError | obsidian_vault/core/frontmatter_operations.py:120-124 | The top level fails at its first bad entry: a blank or non-string key with the top-level key error, a bad value with the error raised under the key's name |
| Frontmatter.Validate | obsidian_vault/core/frontmatter_operations.py:87-137 | A non-dictionary is refused; a dictionary is accepted exactly when its keys and values are sanitisable and the dump of its coerced entries is at most MAX_FRONTMATTER_BYTES, and is then returned coerced; a sanitisable dictionary over the limit gets the size error |
| Frontmatter.SanitizeTopSafe | obsidian_vault/core/frontmatter_operations.py:87-137 | A validated dictionary is one the sanitiser keeps as it is |
| Frontmatter.ValidateIdempotent | obsidian_vault/core/frontmatter_operations.py:87-137 | Validating an already validated dictionary gives it back unchanged |
| Frontmatter.Metadata.EnsureValidYaml | obsidian_vault/core/frontmatter_operations.py:87-137 | On success the dictionary's contents become the validated entries; on failure they are left as they were and the error is returned |
| Frontmatter.LookupFinds | obsidian_vault/core/frontmatter_operations.py:144-148 | A key is found exactly when some entry has it, and what is found is an entry's value |
| Frontmatter.SetOther | obsidian_vault/core/frontmatter_operations.py:149-151 | Setting one key leaves every other key's value as it was |
| Frontmatter.DeepMerge | obsidian_vault/core/frontmatter_operations.py:140-153 | The loop computes the merge of all updates into the base |
| Frontmatter.MergeKeepsBase | obsidian_vault/core/frontmatter_operations.py:140-153 | Base keys that no update names keep their values |
| Frontmatter.MergeTakesUpdate | obsidian_vault/core/frontmatter_operations.py:143-151 | An update key holds the recursive merge when both sides hold a dictionary there, and the update's value otherwise |
| Frontmatter.MergeReplacesLists | obsidian_vault/core/frontmatter_operations.py:150-151 | Lists are replaced, not merged |
| Frontmatter.MergeKeys | obsidian_vault/core/frontmatter_operations.py:140-153 | The merged keys are exactly the base keys and the update keys |
| Frontmatter.MergeIntoEmpty | obsidian_vault/core/frontmatter_operations.py:140-153 | Merging updates with distinct keys into an empty dictionary gives the updates |
| Frontmatter.MergeIdempotent | obsidian_vault/core/frontmatter_operations.py:140-153 | Merging the same updates twice equals merging them once |
| Frontmatter.LoadNote | obsidian_vault/core/frontmatter_operations.py:31-46 | Empty text loads as no metadata, empty content and no block; other text loads as the parser gives it, and a block is reported exactly when the text opens with "---" after leading white space and the content differs from it (`_frontmatter_present`, lines 156-160, used at 194-195) |
| Frontmatter.FrontmatterPresent | obsidian_vault/core/frontmatter_operations.py:156-160 | A block is only ever reported for text that holds "---" after nothing but white space |
| Frontmatter.Serialize | obsidian_vault/core/frontmatter_operations.py:69-84 | Without metadata the body alone is written, with no empty block; otherwise the dump of both |
| Frontmatter.SortStringsSorted | obsidian_vault/core/frontmatter_operations.py:377 | sorted() gives an ordered permutation of the key names |
| Frontmatter.UpdateFrontmatter | obsidian_vault/core/frontmatter_operations.py:232-295 | Refuses a non-dictionary payload, then reports the payload's validation error; reports "unchanged" exactly when the merge of the validated payload changes nothing; otherwise reports "updated" exactly when the merged metadata validates, writing its dump with the body and the sorted payload keys, and the second validation's error when it does not |
| Frontmatter.KeyNamesOfSameKeys | obsidian_vault/core/frontmatter_operations.py:285 | The key names of the validated payload are those of the payload, so the reported fields are the keys the caller sent |
| Frontmatter.UpdateAgainIsUnchanged | obsidian_vault/core/frontmatter_operations.py:250-281 | Once an update has been merged, the same update again finds nothing to change |
| Frontmatter.ReplaceFrontmatter | obsidian_vault/core/frontmatter_operations.py:298-339 | Succeeds exactly for a dictionary payload that validates, with the validator's error otherwise; writes the dump of the validated payload with the loaded body, reports whether the loaded note had a block, and an empty payload writes the body alone |
| Frontmatter.DeleteFrontmatter | obsidian_vault/core/frontmatter_operations.py:342-378 | Reports "no frontmatter" exactly when the loaded note has no block; otherwise writes the loaded body, which differs from the text, and reports the removed keys sorted, as a permutation of the loaded key names |
| Frontmatter.PlainNoteHasNoBlock | obsidian_vault/core/frontmatter_operations.py:156-160 | A note that does not open with "---" after white space has no block, whatever the parser returns: deletion writes nothing and replacement reports no previous block |
| HeadingIndex.NormalizeHeadingKeyShape | obsidian_vault/core/section_operations.py:28-30 | A normalised key is single-spaced and has no capital letter |
| HeadingIndex.NormalizeHeadingKeyIdempotent | obsidian_vault/core/section_operations.py:28-30 | Normalising a key again changes nothing |
| HeadingIndex.SingleSpacedWordsRoundTrip | obsidian_vault/core/section_operations.py:30 | Splitting a single-spaced string on white space and joining with " " gives it back |
| HeadingIndex.MatchAt | obsidian_vault/core/section_operations.py:20 | A match of the heading pattern at a line start is well formed: 1-6 hashes, white space, a title with no white space at its ends, and an end at a line break or the end of the text |
| HeadingIndex.ScanSound | obsidian_vault/core/section_operations.py:45 | finditer's matches lie at or after the scan start, are disjoint and come in order |
| HeadingIndex.ExtendEnd | obsidian_vault/core/section_operations.py:49-53 | The end offset moves past exactly one following line break, and stays put at the end of the text |
| HeadingIndex.StripSpanIsStrip | obsidian_vault/core/section_operations.py:55 | The title taken by offsets is Python's strip() of the matched slice |
| HeadingIndex.ToHeading | obsidian_vault/core/section_operations.py:45-63 | A heading keeps its match's level and start, its end is the extended end, and its key is the normalised title |
| HeadingIndex.MatchesWellFormed | obsidian_vault/core/section_operations.py:33-65 | Headings made from ordered, disjoint matches are well formed: in order, non-overlapping, inside the text |
| HeadingIndex.ParseHeadings | obsidian_vault/core/section_operations.py:33-65 | The loop yields one heading per match, in order, and the list is well formed |
| HeadingIndex.Locate | obsidian_vault/core/section_operations.py:68-89 | The heading found is the first whose key equals the query's key; the error is raised exactly when no heading has that key |
| HeadingIndex.LocateHeading | obsidian_vault/core/section_operations.py:84-89 | The loop returns at the first heading with the query's key |
| HeadingIndex.SectionEnd | obsidian_vault/core/section_operations.py:92-111 | The section ends at the first later heading of the same or a higher rank, or at the end of the text; every heading in between has a lower rank |
| HeadingIndex.SectionBounds | obsidian_vault/core/section_operations.py:92-111 | The bounds are the heading's end and the section end |
| HeadingIndex.SectionInsideText | obsidian_vault/core/section_operations.py:92-111 | For parsed headings the section lies inside the text, after its heading |
| SectionEditor.AfterHeadingBlock | obsidian_vault/core/section_operations.py:156-167 | Empty content inserts nothing; otherwise the content is kept, with a '\n' in front only when it would continue the heading line and one behind only when the following text would continue it |
| SectionEditor.InsertAfterHeading | obsidian_vault/core/section_operations.py:119-182 | Fails exactly when the heading is not found; otherwise the text before and after the heading's end is kept around the block |
| SectionEditor.InsertEmptyIsIdentity | obsidian_vault/core/section_operations.py:156-167 | Inserting empty content leaves the note as it was |
| SectionEditor.AppendLead | obsidian_vault/core/section_operations.py:240-251 | Only '\n's go in front: none after a body ending in a blank line, a blank line after a body that does not end in a line break |
| SectionEditor.AppendTail | obsidian_vault/core/section_operations.py:253-262 | One '\n' always ends the appended text, and a second one exactly when following text starts with something other than a line break |
| SectionEditor.AppendBlockShape | obsidian_vault/core/section_operations.py:229-262 | The block ends in '\n', in a blank line before following text, and is empty for content that is only line breaks |
| SectionEditor.AppendBlockKeepsText | obsidian_vault/core/section_operations.py:229-262 | The content, without its trailing line breaks, appears whole inside the block |
| SectionEditor.AppendBlockLead | obsidian_vault/core/section_operations.py:240-251 | The block starts on a fresh line, after a blank line when the body does not end in a line break |
| SectionEditor.AppendPoint | obsidian_vault/core/section_operations.py:222-227 | The insertion point is the start of the very next heading of any level, or the end of the text |
| SectionEditor.AppendPointInSection | obsidian_vault/core/section_operations.py:222-227 | The insertion point lies after the heading and not after the end of its section |
| SectionEditor.AppendToSection | obsidian_vault/core/section_operations.py:185-279 | Fails exactly when the heading is not found; otherwise the text is kept on both sides of the insertion point, with the block between |
| SectionEditor.AppendLineBreaksIsIdentity | obsidian_vault/core/section_operations.py:229-238 | Content made only of line breaks leaves the note as it was |
| SectionEditor.FreshLine | obsidian_vault/core/section_operations.py:319-336 | A '\n' is put in front of the replacement exactly when it would otherwise continue the text before it |
| SectionEditor.ReplaceBlockShape | obsidian_vault/core/section_operations.py:319-336 | The replacement is the content without trailing line breaks, on a fresh line, followed by "\n\n" before following text or "\n" at the end |
| SectionEditor.ReplaceBlockOnFreshLine | obsidian_vault/core/section_operations.py:319-336 | The replaced section never continues the heading line |
| SectionEditor.ReplaceSection | obsidian_vault/core/section_operations.py:282-351 | Fails exactly when the heading is not found; otherwise the text up to the heading's end, the block, then the text from the section end without its leading line breaks |
| SectionEditor.Collapse | obsidian_vault/core/section_operations.py:393 | The collapse empties only empty text and keeps whether the text starts with '\n' |
| SectionEditor.CollapseKeepsVisible | obsidian_vault/core/section_operations.py:393 | Only '\n's are removed: every other character stays, in order |
| SectionEditor.CollapseHasNoTriple | obsidian_vault/core/section_operations.py:393 | After the collapse no three '\n's follow each other |
| SectionEditor.CollapseWithoutTriple | obsidian_vault/core/section_operations.py:393 | Text without three '\n's in a row is left as it is |
| SectionEditor.CollapseIdempotent | obsidian_vault/core/section_operations.py:393 | Collapsing twice is collapsing once |
| SectionEditor.CollapseRun | obsidian_vault/core/section_operations.py:393 | A run of three or more '\n's becomes exactly "\n\n", a shorter run is kept, and the text after the run is collapsed on its own |
| SectionEditor.DeleteSection | obsidian_vault/core/section_operations.py:354-409 | Fails exactly when the heading is not found; otherwise the text before the heading and from the section end, collapsed |
| SectionEditor.DeleteSectionShape | obsidian_vault/core/section_operations.py:389-393 | After a deletion no three '\n's follow each other, and the other characters are exactly those before the heading followed by those after the section |
| Search.FilterByQuery | obsidian_vault/core/search_operations.py:128-131 | A name is kept exactly when it is listed and its lower-cased form contains the lower-cased query; the result is a sub-multiset of the listing, so no name is repeated beyond the listing |
| Search.FilterCounts | obsidian_vault/core/search_operations.py:128-131 | Each kept name appears exactly as often as in the listing, and a dropped name not at all |
| Search.FilterKeepsOrder | obsidian_vault/core/search_operations.py:128-131 | The filter never reorders the listing |
| Search.FindFirst | obsidian_vault/core/search_operations.py:186 | find() reports the first occurrence at or after start, and none when there is none |
| Search.OccurrencesSound | obsidian_vault/core/search_operations.py:181-190 | Every recorded position is an occurrence, and the positions increase without overlapping |
| Search.OccurrencesCover | obsidian_vault/core/search_operations.py:181-190 | Every occurrence at or after the start overlaps a recorded match |
| Search.NoOccurrences | obsidian_vault/core/search_operations.py:192-193 | A text without the query records no match |
| Search.MatchPositions | obsidian_vault/core/search_operations.py:181-190 | The loop records exactly the non-overlapping occurrences, searching on after each match |
| Search.SnippetHoldsMatch | obsidian_vault/core/search_operations.py:195-206 | A snippet shows the match, at a known offset |
| Search.SnippetLength | obsidian_vault/core/search_operations.py:195-206 | A snippet holds at most 100 characters of context either side of the match, plus the markers |
| Search.SnippetFront | obsidian_vault/core/search_operations.py:197-202 | A snippet starts with "..." exactly when the window is cut at the front |
| Search.SnippetBack | obsidian_vault/core/search_operations.py:198-204 | A snippet ends with "..." exactly when the window is cut at the back |
| Search.Snippets | obsidian_vault/core/search_operations.py:195-206 | The loop makes one snippet per match, for the first three matches only |
| Search.ContentMatch | obsidian_vault/core/search_operations.py:178-214 | A file gives a result exactly when its text is non-empty and holds the query, with the number of matches and one to three snippets |
| Search.ContentMatchesExactly | obsidian_vault/core/search_operations.py:163-214 | Each result comes from some file, and every file with a match gives one |
| Search.SortByCountDescending | obsidian_vault/core/search_operations.py:216 | The ranking is ordered by match count, most first, and is a permutation of the results |
| Search.NoteContentRefusesBlank | obsidian_vault/core/search_operations.py:156-158 | The content search refuses exactly the blank queries |
| Search.NoteContentRanked | obsidian_vault/core/search_operations.py:216-221 | Exactly min(ten, number of matching files) results, ranked by count, each the match of some file; every match left out has no more occurrences than the last one kept |
| Search.SearchNoteContent | obsidian_vault/core/search_operations.py:140-222 | The walk returns exactly NoteContentResults: the blank-query error, or the file matches ranked by count and cut to ten, whose properties NoteContentRanked and NoteContentRefusesBlank state |
| Search.NormalizeSearchTagsShape | obsidian_vault/core/search_operations.py:247-250 | The search tags are the non-blank tags, stripped and lower-cased; none is left exactly when all are blank |
| Search.NormalizeSearchTagsAppend | obsidian_vault/core/search_operations.py:247-250 | Normalising a concatenation normalises each part in order, so the search tags keep the order of the input |
| Search.NormalizeSearchTagsOne | obsidian_vault/core/search_operations.py:247-250 | A single tag gives its stripped, lower-cased form, or nothing when it is blank |
| Search.NormalizeSearchTagsFrom | obsidian_vault/core/search_operations.py:247-250 | Every search tag is the stripped, lower-cased form of some non-blank input tag |
| Search.NormalizeNoteTags | obsidian_vault/core/search_operations.py:263-274 | A note tag is kept exactly when it is non-empty, lower-cased |
| Search.NoteTags | obsidian_vault/core/search_operations.py:263-270 | A missing "tags" key gives no tags; a string gives itself stripped; a list gives each item's string form stripped, one per item; any other value skips the note |
| Search.TaggedNamesExactly | obsidian_vault/core/search_operations.py:253-295 | A name is listed exactly when some file with that name is tagged |
| Search.SearchNotesByTags | obsidian_vault/core/search_operations.py:225-311 | The walk returns exactly TagSearchResults: the no-tag error, or the sorted names of the tagged notes, as TagSearchShape states |
| Search.TagSearchShape | obsidian_vault/core/search_operations.py:247-304 | The tag search refuses exactly when every tag is blank; otherwise its names are sorted and are exactly the names of the tagged notes |
| Search.AllWithinEach | obsidian_vault/core/search_operations.py:276-286 | A note listed when all tags are required is listed by a search for any one of them |
| Search.AnyWithinUnion | obsidian_vault/core/search_operations.py:276-286 | A note listed when any tag suffices is listed by a search for one of the tags alone |
| Search.AllWithinAny | obsidian_vault/core/search_operations.py:276-286 | Requiring all tags lists no note that requiring any would not |
| Search.NoFrontmatterNotTagged | obsidian_vault/core/search_operations.py:259-260 | A note whose text does not start with "---" after white space is never listed |
| Search.BlankTagsNotTagged | obsidian_vault/core/search_operations.py:263-274 | A note whose tags are all blank, or that has none, is never listed |
| Backlinks.WikiAtSound | obsidian_vault/core/note_operations.py:86-88 | A wikilink match spans exactly the link [[oldTitle + alias]] it reports |
| Backlinks.WikiAtComplete | obsidian_vault/core/note_operations.py:86-88 | Every well-formed wikilink to the old title is the match found at its index |
| Backlinks.MdAt | obsidian_vault/core/note_operations.py:89-91 | A match ends inside the text, has a ']'-free caption and the extension "" or ".md" |
| Backlinks.MdAtSound | obsidian_vault/core/note_operations.py:89-91 | A markdown-link match spans exactly the link [caption](oldTitle + ext) it reports |
| Backlinks.MdAtComplete | obsidian_vault/core/note_operations.py:89-91 | Every well-formed markdown link to the old title is the match found at its index |
| Backlinks.LinkCloseOf | obsidian_vault/core/note_operations.py:89-91 | A link closed by ".md)" is closed with that extension, and not read as a bare ")" |
| Backlinks.SubWikiUnchanged | obsidian_vault/core/note_operations.py:105-109 | The wikilink substitution changes nothing when renaming to the same title |
| Backlinks.SubMdUnchanged | obsidian_vault/core/note_operations.py:111-115 | The markdown-link substitution changes nothing when renaming to the same title |
| Backlinks.RewriteSameTitle | obsidian_vault/core/note_operations.py:105-120 | Renaming a note to its own title rewrites no text, so no note is written |
| Backlinks.NoReferenceUnchanged | obsidian_vault/core/note_operations.py:105-120 | A text that never mentions "[[" or "](" followed by the old title is left as it is |
| Backlinks.SubWikiCopies | obsidian_vault/core/note_operations.py:105-109 | Text with no wikilink match is copied unchanged by the substitution |
| Backlinks.SubWikiAtLink | obsidian_vault/core/note_operations.py:86-88 | At a wikilink [[oldTitle + alias]] the substitution writes [[newTitle + alias]], keeping the alias, and goes on after the link |
| Backlinks.SubWikiSplice | obsidian_vault/core/note_operations.py:105-109 | Text up to a first wikilink is copied, the link is rewritten to the new title, and the substitution goes on after it |
| Backlinks.RewriteOneWikiLink | obsidian_vault/core/note_operations.py:105-115 | A note that is just [[oldTitle + alias]] is rewritten by both passes to [[newTitle + alias]], when neither the new title nor the alias holds '(' (otherwise the markdown pass could match inside the rewritten link) |
| Backlinks.SubMdCopies | obsidian_vault/core/note_operations.py:111-115 | Text with no markdown-link match is copied unchanged by the substitution |
| Backlinks.SubMdAtLink | obsidian_vault/core/note_operations.py:89-91 | At a link [caption](oldTitle + ext) the substitution writes [caption](newTitle + ext), keeping caption and extension, and goes on after the link |
| Backlinks.SubMdSplice | obsidian_vault/core/note_operations.py:111-115 | Text up to a first markdown link is copied, the link is rewritten to the new title, and the substitution goes on after it |
| Backlinks.RewriteOneMdLink | obsidian_vault/core/note_operations.py:105-115 | A note that is just [caption](oldTitle + ext) is rewritten by both passes to [caption](newTitle + ext), when neither the caption nor the old title holds '[' (so the wikilink pass finds nothing) |
| NoteStore.CombineWithNewline | obsidian_vault/core/note_operations.py:27-43 | Each side is kept whole, with one '\n' between them exactly when both are non-empty and neither side brings one |
| NoteStore.CombineSeparatesLines | obsidian_vault/core/note_operations.py:27-43 | With both sides non-empty a line break always sits where they meet |
| NoteStore.CombineEnd | obsidian_vault/core/note_operations.py:27-43 | A combination with a non-empty right side ends as that side ends |
| NoteStore.CombineStart | obsidian_vault/core/note_operations.py:27-43 | A combination with a non-empty left side starts as that side starts |
| NoteStore.CombineAssociative | obsidian_vault/core/note_operations.py:27-43 | Appending b then c gives the text that appending their combination gives |
| NoteStore.Renamed | obsidian_vault/core/note_operations.py:384 | After the rename the new path holds the old text, the old path is gone and every other note is kept |
| NoteStore.SameTitleRewritesNothing | obsidian_vault/core/note_operations.py:71-128 | A pass renaming a title to itself rewrites nothing and counts nothing |
| NoteStore.ChangedOnlyIfReferenced | obsidian_vault/core/note_operations.py:105-120 | Only a note that mentions the old title can be rewritten |
| NoteStore.Vault.Target | obsidian_vault/core/vault_operations.py:7-17 | A missing vault is refused first; otherwise the title's resolved path, always inside the root |
| NoteStore.Vault.Create | obsidian_vault/core/note_operations.py:136-169 | A new note gets the content; an existing note is refused and never overwritten |
| NoteStore.Vault.Retrieve | obsidian_vault/core/note_operations.py:172-198 | The text of an existing note; a missing note is reported not found |
| NoteStore.Vault.Replace | obsidian_vault/core/note_operations.py:201-229 | An existing note's text becomes the content; nothing else changes |
| NoteStore.Vault.Append | obsidian_vault/core/note_operations.py:232-262 | An existing note becomes its text combined with the content |
| NoteStore.Vault.Prepend | obsidian_vault/core/note_operations.py:265-295 | An existing note becomes the content combined with its text |
| NoteStore.Vault.Delete | obsidian_vault/core/note_operations.py:298-325 | An existing note is removed and every other note kept |
| NoteStore.Vault.UpdateBacklinks | obsidian_vault/core/note_operations.py:71-128 | Every note ends holding its rewritten text, and the count is the number of notes whose text changed |
| NoteStore.Vault.Move | obsidian_vault/core/note_operations.py:328-404 | Refuses a missing source or an occupied target; otherwise renames, then rewrites links when asked, returning how many notes changed |
| InputModels.ValidateTitle | obsidian_vault/models/base.py:42-102 | A title is accepted exactly when stripped it is non-empty, not ".md" alone, has no dot segment and no leading '/'; the result is the stripped title with one trailing ".md" dropped; ".md" alone gets its own error |
| InputModels.TitleEmptyIffBlank | obsidian_vault/models/base.py:63-69 | A title is refused as empty exactly when it is blank |
| InputModels.TitleMdOptional | obsidian_vault/models/base.py:90-102 | For a clean name x, "x" and "x.md" are both accepted and both give x |
| InputModels.ValidatedTitleStaysInside | obsidian_vault/models/base.py:42-102 | An accepted title always resolves inside the vault, whatever the root |
| InputModels.DotDotThroughMdSuffix | obsidian_vault/models/base.py:72-102 | "folder/...md" passes the checks and comes back as "folder/..", which has a ".." segment |
| InputModels.DotsMdAccepted | obsidian_vault/models/base.py:72-102 | folder + "/" + leaf is accepted when the leaf is a separator-free non-dot name ending in ".md" |
| InputModels.ValidateVault | obsidian_vault/models/base.py:104-125 | An absent name stays absent, a blank name is refused, and any other name comes back stripped |
| InputModels.ValidateVaultIdempotent | obsidian_vault/models/base.py:104-125 | Only a blank name is refused, and validating an accepted name again changes nothing |
| InputModels.HeadingTextShape | obsidian_vault/models/base.py:145-181 | An accepted heading is non-empty, starts with neither '#' nor white space and ends in no white space |
| InputModels.HeadingTextIdempotent | obsidian_vault/models/base.py:145-181 | Cleaning a heading twice is cleaning it once |
| InputModels.HeadingTextOfStrip | obsidian_vault/models/base.py:162-173 | Stripping first does not change the cleaned heading |
| InputModels.ValidateHeading | obsidian_vault/models/base.py:145-181 | Refused exactly when the text is only '#' and white space, with the empty or only-hashes error; otherwise the cleaned heading |
| InputModels.ValidateContent | obsidian_vault/models/note_models.py:140-159 | Content is passed on unchanged; only the non-blank rule refuses, and only blank content |
| InputModels.ValidateQuery | obsidian_vault/models/search_models.py:109-118 | A blank query is refused; otherwise the stripped query |
| InputModels.SortKey | obsidian_vault/models/search_models.py:131-147 | A key is accepted exactly when stripped and lower-cased it is one of modified, created, size, name, and comes back in that form |
| InputModels.SortKeyIdempotent | obsidian_vault/models/search_models.py:131-147 | An accepted key is accepted again as itself |
| InputModels.ValidateSortBy | obsidian_vault/models/search_models.py:131-147 | An absent key stays absent; a present one is accepted exactly when it is an allowed key |
| InputModels.FolderSortBy | obsidian_vault/models/search_models.py:368-431 | An absent key means "modified"; a present key is accepted exactly when stripped and lower-cased it is one of modified, created, size, name, and comes back in that form; otherwise the error names that form |
| InputModels.CleanTagsShape | obsidian_vault/models/search_models.py:273-292 | The cleaned tags are the stripped non-blank tags; none is left exactly when all are blank |
| InputModels.CleanTagsAppend | obsidian_vault/models/search_models.py:273-292 | Cleaning a concatenation cleans each part in order, so the cleaned tags keep the order of the input |
| InputModels.CleanTagsOne | obsidian_vault/models/search_models.py:273-292 | A single tag gives itself stripped, or nothing when it is blank |
| InputModels.CleanTagsFrom | obsidian_vault/models/search_models.py:273-292 | Every cleaned tag is the stripped form of some non-blank input tag |
| InputModels.CleanTagsKeepSearchTags | obsidian_vault/models/search_models.py:273-292 | Validating the tags first does not change the search tags the tag search derives from them |
| InputModels.ValidateTags | obsidian_vault/models/search_models.py:273-292 | An empty list is refused; otherwise the cleaned tags, refused when none is left |
| InputModels.ValidateTagsRefusesBlank | obsidian_vault/models/search_models.py:273-292 | Tags are refused exactly when none is non-blank |
| InputModels.ValidateFolderPath | obsidian_vault/models/search_models.py:376-405 | An accepted folder path is the non-empty stripped input with no dot segment and no leading '/'; a stripped path with a dot segment or a leading '/' gets that error, and any other non-blank path is accepted as its stripped form |
| InputModels.FolderEmptyIffBlank | obsidian_vault/models/search_models.py:380-386 | A folder path is refused as empty exactly when it is blank |
| InputModels.ValidateMove | obsidian_vault/models/note_models.py:271-347 | Refuses with the old title's error, then the new title's; when both titles pass, the move is accepted exactly when the cleaned titles differ, with update_links defaulting to true, and refused as the same title otherwise |
| InputModels.MoveOntoOwnMdName | obsidian_vault/models/note_models.py:328-347 | Moving "A.md" onto "A" is refused, since both name the same note |

## Left out

- **File system.**
  - Symlinks are not modelled. `Path.resolve()` is lexical: ".." removes a
    component and "." vanishes.
  - Directories at note paths are not modelled.
  - `mkdir` of parent folders, timestamps and `OSError` failures are not
    modelled.
  - The vault is a map from paths to texts.
- **YAML.**
  - `frontmatter.loads` and `frontmatter.dumps` are foreign, so they are
    parameters: a parse function, a dump function and a dump-size function.
  - `_parse_frontmatter` is modelled by `Frontmatter.LoadNote`: empty text is
    answered without the parser, any other text is handed to it. The parser's
    YAML error is not modelled. `read_frontmatter` only calls the loader, so it
    is not modelled beyond `LoadNote`.
- **Directory walk order.** The order of `rglob` is the order of the file
  list passed in.
- **Metadata branches.**
  - `list_notes` and `list_notes_in_folder` are not modelled.
  - The `include_metadata` branches and the sorts by modified, created and
    size time are not modelled, because they read file-system timestamps.
  - The name-only paths of the searches are modelled.
- **Errors.**
  - The text of error messages is not modelled; errors are datatype values.
  - Display names inside error messages are not modelled.
  - Pydantic's aggregation of several validation errors is not modelled.
- **Unicode.**
  - `lower()` is modelled on ASCII letters only.
  - White space is Python's `str.isspace` set.
  - Sizes are counted in characters. The dump-size parameter stands for the
    UTF-8 byte count.
- **Line endings.** A match of `HEADING_PATTERN` ends at the end of the text or
  right before a '\n': `$` in multi-line mode matches only there, and `\s*`
  takes any '\r' before it. So the parser's "\r\n" and "\r" extensions can
  never apply after a match. `HeadingIndex.ExtendEnd` still models them.
- **Display names.** `obsidian_vault.py`'s `_note_display_name` uses
  `as_posix()` and does not replace '\\'. The core's replacing form is the one
  modelled.
- **Content search.** `Search.SortByCount` is a stable insertion sort. Its
  contract states order and permutation only; it does not state that results
  with equal counts keep walk order.
- **Tag search.** The tag values' `str()` conversion is a parameter.
- Frontmatter.UpdateFrontmatter: the "unchanged" test is structural equality
  of the model's values. Python's `==` also equates `True`, `1` and `1.0`,
  and compares dictionaries, nested ones included, without regard to key
  order. Where only those differences separate the merge from the current
  metadata, the model answers "updated" and Python answers "unchanged".
- Frontmatter.DeleteFrontmatter: the removed fields are the string keys of the
  loaded metadata. YAML can load keys that are not strings. Python reports
  them too, or, when key types are mixed, raises `TypeError` from `sorted()`
  after the note has been written. The model keeps no type for such keys, so
  it neither lists them nor models that error.
- VaultPaths.NoteDisplayName: for the vault root itself the model gives the
  empty name, where `with_suffix("")` raises `ValueError`. The note
  operations reach that case only when a title resolves to the vault folder
  itself.
