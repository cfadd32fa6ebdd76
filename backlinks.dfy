/**
 * The text rewrite `_update_backlinks` applies to every note after a move:
 * the wikilink pattern `\[\[` old `(\|[^\]]+)?\]\]` and the markdown-link
 * pattern `\[([^\]]+)\]\(` old `(\.md)?\)`, each substituted left to right
 * over the whole text as re.sub does, the wikilinks first. The old title is
 * escaped, so it is matched literally.
 */
module Backlinks {
  import opened Text
  import opened Wrappers

  /** A wikilink match: where it ends and its alias group ("" when absent). */
  datatype WikiLink = WikiLink(end: nat, alias: string)

  /** A markdown-link match: where it ends, its caption and its ext group ("" or ".md"). */
  datatype MdLink = MdLink(end: nat, caption: string, ext: string)

  /** What the group `(\|[^\]]+)?` can capture. */
  predicate ValidAlias(a: string)
  {
    a == [] || (|a| >= 2 && a[0] == '|' && forall k :: 1 <= k < |a| ==> a[k] != ']')
  }

  /** What the group `([^\]]+)` can capture. */
  predicate ValidCaption(c: string)
  {
    c != [] && forall k :: 0 <= k < |c| ==> c[k] != ']'
  }

  /** The wikilink [[title|alias]] (or [[title]] with an empty alias). */
  function WikiText(title: string, alias: string): string
  {
    "[[" + title + alias + "]]"
  }

  /** The markdown link [caption](title + ext). */
  function MdText(caption: string, title: string, ext: string): string
  {
    "[" + caption + ("](" + title) + (ext + ")")
  }

  /**
   * The wikilink pattern tried at index i. The alias run `[^\]]+` is greedy and
   * cannot contain ']', so backtracking never finds another way: the alias,
   * when present, ends at the first ']' after the '|'.
   */
  function WikiAt(text: string, i: nat, oldTitle: string): (r: Option<WikiLink>)
    requires i <= |text|
    ensures r.Some? ==> i < r.value.end <= |text| && ValidAlias(r.value.alias)
  {
    if !OccursAt(text, "[[" + oldTitle, i) then None
    else
      var j := i + 2 + |oldTitle|;
      if j < |text| && text[j] == '|' then
        var k := IndexOfFrom(text, ']', j + 1);
        if k > j + 1 && OccursAt(text, "]]", k) then Some(WikiLink(k + 2, text[j..k]))
        else None
      else if OccursAt(text, "]]", j) then Some(WikiLink(j + 2, []))
      else None
  }

  /** A wikilink match spans exactly the link [[oldTitle + alias]] it reports. */
  lemma WikiAtSound(text: string, i: nat, oldTitle: string)
    requires i <= |text|
    ensures var r := WikiAt(text, i, oldTitle);
      r.Some? ==> text[i..r.value.end] == WikiText(oldTitle, r.value.alias)
  {
    var r := WikiAt(text, i, oldTitle);
    if r.Some? {
      var j := i + 2 + |oldTitle|;
      var a := r.value.alias;
      assert text[i..j] == "[[" + oldTitle;
      if j < |text| && text[j] == '|' {
        var k := IndexOfFrom(text, ']', j + 1);
        assert a == text[j..k] && r.value.end == k + 2;
        assert text[k..k + 2] == "]]";
      } else {
        assert a == [] && r.value.end == j + 2;
        assert text[j..j + 2] == "]]";
      }
      var end := r.value.end;
      SliceSplit(text, i, end - 2, end);
      SliceSplit(text, i, j, end - 2);
    }
  }

  /**
   * The markdown-link pattern tried at index i. The caption run is greedy and
   * ']'-free, so it ends at the first ']' after the '['; the optional ".md" is
   * tried before the bare ")".
   */
  function MdAt(text: string, i: nat, oldTitle: string): (r: Option<MdLink>)
    requires i <= |text|
    ensures r.Some? ==> i < r.value.end <= |text| && ValidCaption(r.value.caption)
    ensures r.Some? ==> r.value.ext == [] || r.value.ext == ".md"
  {
    if !(i < |text| && text[i] == '[') then None
    else
      var k := IndexOfFrom(text, ']', i + 1);
      if k == i + 1 || !OccursAt(text, "](" + oldTitle, k) then None
      else
        var j := k + 2 + |oldTitle|;
        var ext := LinkClose(text, j);
        if ext.None? then None else Some(MdLink(j + |ext.value| + 1, text[i + 1..k], ext.value))
  }

  /** The tail `(\.md)?\)` of the markdown-link pattern at j: the extension matched, if the link closes there. */
  function LinkClose(text: string, j: nat): (ext: Option<string>)
    ensures ext.Some? ==> ext.value == [] || ext.value == ".md"
  {
    if j + 4 <= |text| && text[j] == '.' && text[j + 1] == 'm' && text[j + 2] == 'd' && text[j + 3] == ')' then Some(".md")
    else if j < |text| && text[j] == ')' then Some("")
    else None
  }

  /** What LinkClose reports is there: the extension it names, then ")". */
  lemma LinkCloseSound(text: string, j: nat)
    requires LinkClose(text, j).Some?
    ensures OccursAt(text, LinkClose(text, j).value + ")", j)
  {
  }

  /** A link closed by ext + ")" at j is closed with that extension: ".md" is not mistaken for part of a bare ")". */
  lemma LinkCloseOf(text: string, j: nat, ext: string)
    requires (ext == [] || ext == ".md") && OccursAt(text, ext + ")", j)
    ensures LinkClose(text, j) == Some(ext)
  {
    var t := ext + ")";
    assert text[j..j + |t|] == t;
    assert text[j] == t[0];
    if ext == ".md" {
      assert text[j + 1] == t[1] && text[j + 2] == t[2] && text[j + 3] == t[3];
    }
  }

  /** A markdown-link match spans exactly the link [caption](oldTitle + ext) it reports. */
  lemma MdAtSound(text: string, i: nat, oldTitle: string)
    requires i <= |text|
    ensures var r := MdAt(text, i, oldTitle);
      r.Some? ==> text[i..r.value.end] == MdText(r.value.caption, oldTitle, r.value.ext)
  {
    var r := MdAt(text, i, oldTitle);
    if r.Some? {
      var k := IndexOfFrom(text, ']', i + 1);
      var j := k + 2 + |oldTitle|;
      var c, x, tail := text[i + 1..k], "](" + oldTitle, r.value.ext + ")";
      assert r.value.caption == c;
      assert text[i..i + 1] == "[";
      assert text[k..j] == x;
      var end := r.value.end;
      LinkCloseSound(text, j);
      assert text[j..end] == tail;
      SliceSplit(text, i, j, end);
      SliceSplit(text, i, k, j);
      SliceSplit(text, i, i + 1, k);
    }
  }

  /** Every well-formed wikilink to oldTitle at index i is the match found there. */
  lemma WikiAtComplete(text: string, i: nat, oldTitle: string, alias: string)
    requires ValidAlias(alias) && OccursAt(text, WikiText(oldTitle, alias), i)
    ensures WikiAt(text, i, oldTitle) == Some(WikiLink(i + |oldTitle| + |alias| + 4, alias))
  {
    var j := i + 2 + |oldTitle|;
    var w := "[[" + oldTitle;
    var k := j + |alias|;
    Halves(text, i, w + alias, "]]");
    Halves(text, i, w, alias);
    assert OccursAt(text, w, i) && OccursAt(text, "]]", k);
    if alias != [] {
      assert text[j] == text[j..k][0] == '|';
      forall m | j + 1 <= m < k
        ensures text[m] != ']'
      {
        assert text[m] == text[j..k][m - j];
      }
      assert text[k] == text[k..k + 2][0] == ']';
      ClosingBracket(text, j + 1, k);
      WikiAtAliased(text, i, oldTitle, k);
    } else {
      assert text[j] == text[k..k + 2][0] == ']';
      WikiAtPlain(text, i, oldTitle);
    }
  }

  /** The aliased branch of WikiAt: the alias runs from the '|' to the first ']' after it. */
  lemma WikiAtAliased(text: string, i: nat, oldTitle: string, k: nat)
    requires OccursAt(text, "[[" + oldTitle, i)
    requires i + 2 + |oldTitle| < |text| && text[i + 2 + |oldTitle|] == '|'
    requires IndexOfFrom(text, ']', i + 3 + |oldTitle|) == k > i + 3 + |oldTitle| && OccursAt(text, "]]", k)
    ensures WikiAt(text, i, oldTitle) == Some(WikiLink(k + 2, text[i + 2 + |oldTitle|..k]))
  {
  }

  /** The plain branch of WikiAt: "]]" right after the title. */
  lemma WikiAtPlain(text: string, i: nat, oldTitle: string)
    requires OccursAt(text, "[[" + oldTitle, i)
    requires i + 2 + |oldTitle| < |text| && text[i + 2 + |oldTitle|] == ']'
    requires OccursAt(text, "]]", i + 2 + |oldTitle|)
    ensures WikiAt(text, i, oldTitle) == Some(WikiLink(i + 4 + |oldTitle|, []))
  {
  }

  /** Every well-formed markdown link to oldTitle at index i is the match found there. */
  lemma MdAtComplete(text: string, i: nat, oldTitle: string, caption: string, ext: string)
    requires ValidCaption(caption) && (ext == [] || ext == ".md")
    requires OccursAt(text, MdText(caption, oldTitle, ext), i)
    ensures MdAt(text, i, oldTitle) == Some(MdLink(i + |caption| + |oldTitle| + |ext| + 4, caption, ext))
  {
    MdTextParts(text, i, oldTitle, caption, ext);
    MdAtOfParts(text, i, oldTitle, caption, ext);
  }

  /** The pieces of a markdown link found at i: '[', the caption, "](" + oldTitle, then ext + ")". */
  lemma MdTextParts(text: string, i: nat, oldTitle: string, caption: string, ext: string)
    requires OccursAt(text, MdText(caption, oldTitle, ext), i)
    ensures var k := i + 1 + |caption|;
      k < |text| && text[i] == '[' && text[i + 1..k] == caption && OccursAt(text, "](" + oldTitle, k)
      && OccursAt(text, ext + ")", k + 2 + |oldTitle|)
  {
    var k := i + 1 + |caption|;
    var j := k + 2 + |oldTitle|;
    var x, p := "](" + oldTitle, "[" + caption;
    assert |p + x| == j - i && |p| == k - i;
    Halves(text, i, p + x, ext + ")");
    Halves(text, i, p, x);
    Halves(text, i, "[", caption);
    assert text[i] == text[i..i + 1][0];
  }

  /** MdAt on a markdown link given by its pieces. */
  lemma MdAtOfParts(text: string, i: nat, oldTitle: string, caption: string, ext: string)
    requires ValidCaption(caption) && (ext == [] || ext == ".md")
    requires var k := i + 1 + |caption|;
      k < |text| && text[i] == '[' && text[i + 1..k] == caption && OccursAt(text, "](" + oldTitle, k)
      && OccursAt(text, ext + ")", k + 2 + |oldTitle|)
    ensures MdAt(text, i, oldTitle) == Some(MdLink(i + |caption| + |oldTitle| + |ext| + 4, caption, ext))
  {
    var k := i + 1 + |caption|;
    assert text[k] == text[k..k + 2 + |oldTitle|][0] == ']';
    RunThenBracket(text, i + 1, k);
    LinkCloseOf(text, k + 2 + |oldTitle|, ext);
    MdAtFound(text, i, oldTitle, k, ext);
  }

  /** MdAt once the caption ends at k and the target oldTitle is followed by ext + ")". */
  lemma MdAtFound(text: string, i: nat, oldTitle: string, k: nat, ext: string)
    requires i < |text| && text[i] == '['
    requires IndexOfFrom(text, ']', i + 1) == k > i + 1 && OccursAt(text, "](" + oldTitle, k)
    requires LinkClose(text, k + 2 + |oldTitle|) == Some(ext)
    ensures MdAt(text, i, oldTitle) == Some(MdLink(k + 3 + |oldTitle| + |ext|, text[i + 1..k], ext))
  {
  }

  /** A ']'-free run text[from..k] closed by a ']' at k: the first ']' from `from` on is at k. */
  lemma RunThenBracket(text: string, from: nat, k: nat)
    requires from <= k < |text| && text[k] == ']'
    requires forall m :: 0 <= m < |text[from..k]| ==> text[from..k][m] != ']'
    ensures IndexOfFrom(text, ']', from) == k
  {
    forall m | from <= m < k
      ensures text[m] != ']'
    {
      assert text[m] == text[from..k][m - from];
    }
    ClosingBracket(text, from, k);
  }

  /** The first ']' at or after from is at k when none lies in between. */
  lemma ClosingBracket(text: string, from: nat, k: nat)
    requires from <= k < |text| && text[k] == ']'
    requires forall m :: from <= m < k ==> text[m] != ']'
    ensures IndexOfFrom(text, ']', from) == k
    decreases k - from
  {
    if from < k {
      ClosingBracket(text, from + 1, k);
    }
  }

  /** `wikilink_pattern.sub(...)` over text[i..]: each match becomes [[newTitle + alias]]. */
  function SubWiki(text: string, oldTitle: string, newTitle: string, i: nat): string
    requires i <= |text|
    decreases |text| - i
  {
    if i == |text| then []
    else
      match WikiAt(text, i, oldTitle)
      case Some(m) => WikiText(newTitle, m.alias) + SubWiki(text, oldTitle, newTitle, m.end)
      case None => [text[i]] + SubWiki(text, oldTitle, newTitle, i + 1)
  }

  /** `markdown_link_pattern.sub(...)` over text[i..]: each match becomes [caption](newTitle + ext). */
  function SubMd(text: string, oldTitle: string, newTitle: string, i: nat): string
    requires i <= |text|
    decreases |text| - i
  {
    if i == |text| then []
    else
      match MdAt(text, i, oldTitle)
      case Some(m) => MdText(m.caption, newTitle, m.ext) + SubMd(text, oldTitle, newTitle, m.end)
      case None => [text[i]] + SubMd(text, oldTitle, newTitle, i + 1)
  }

  /** The rewritten note text: wikilinks first, then markdown links. */
  function RewriteLinks(text: string, oldTitle: string, newTitle: string): string
  {
    var wiki := SubWiki(text, oldTitle, newTitle, 0);
    SubMd(wiki, oldTitle, newTitle, 0)
  }

  /** One step of the wikilink substitution at index i, when a match there is rewritten to the same title. */
  lemma SubWikiStep(text: string, oldTitle: string, newTitle: string, i: nat)
    requires i < |text|
    ensures WikiAt(text, i, oldTitle).None? ==>
      SubWiki(text, oldTitle, newTitle, i) == [text[i]] + SubWiki(text, oldTitle, newTitle, i + 1)
    ensures WikiAt(text, i, oldTitle).Some? && oldTitle == newTitle ==>
      SubWiki(text, oldTitle, newTitle, i) ==
      text[i..WikiAt(text, i, oldTitle).value.end] + SubWiki(text, oldTitle, newTitle, WikiAt(text, i, oldTitle).value.end)
  {
    WikiAtSound(text, i, oldTitle);
  }

  /** One step of the markdown-link substitution at index i, when a match there is rewritten to the same title. */
  lemma SubMdStep(text: string, oldTitle: string, newTitle: string, i: nat)
    requires i < |text|
    ensures MdAt(text, i, oldTitle).None? ==>
      SubMd(text, oldTitle, newTitle, i) == [text[i]] + SubMd(text, oldTitle, newTitle, i + 1)
    ensures MdAt(text, i, oldTitle).Some? && oldTitle == newTitle ==>
      SubMd(text, oldTitle, newTitle, i) ==
      text[i..MdAt(text, i, oldTitle).value.end] + SubMd(text, oldTitle, newTitle, MdAt(text, i, oldTitle).value.end)
  {
    MdAtSound(text, i, oldTitle);
  }

  /** The wikilink substitution changes nothing when it renames to the same title or finds no link. */
  lemma {:induction false} SubWikiUnchanged(text: string, oldTitle: string, newTitle: string, i: nat)
    requires i <= |text|
    requires oldTitle == newTitle || forall k :: i <= k <= |text| ==> WikiAt(text, k, oldTitle) == None
    ensures SubWiki(text, oldTitle, newTitle, i) == text[i..]
    decreases |text| - i
  {
    if i < |text| {
      SubWikiStep(text, oldTitle, newTitle, i);
      var r := WikiAt(text, i, oldTitle);
      if r.Some? {
        SubWikiUnchanged(text, oldTitle, newTitle, r.value.end);
        SuffixSplit(text, i, r.value.end);
      } else {
        SubWikiUnchanged(text, oldTitle, newTitle, i + 1);
        SuffixSplit(text, i, i + 1);
      }
    }
  }

  /** The markdown-link substitution changes nothing when it renames to the same title or finds no link. */
  lemma {:induction false} SubMdUnchanged(text: string, oldTitle: string, newTitle: string, i: nat)
    requires i <= |text|
    requires oldTitle == newTitle || forall k :: i <= k <= |text| ==> MdAt(text, k, oldTitle) == None
    ensures SubMd(text, oldTitle, newTitle, i) == text[i..]
    decreases |text| - i
  {
    if i < |text| {
      SubMdStep(text, oldTitle, newTitle, i);
      var r := MdAt(text, i, oldTitle);
      if r.Some? {
        SubMdUnchanged(text, oldTitle, newTitle, r.value.end);
        SuffixSplit(text, i, r.value.end);
      } else {
        SubMdUnchanged(text, oldTitle, newTitle, i + 1);
        SuffixSplit(text, i, i + 1);
      }
    }
  }

  /** Renaming a note to its own title rewrites no text, so no note is written. */
  lemma RewriteSameTitle(text: string, title: string)
    ensures RewriteLinks(text, title, title) == text
  {
    SubWikiUnchanged(text, title, title, 0);
    SubMdUnchanged(text, title, title, 0);
  }

  /** A text that never mentions "[[" + oldTitle or "](" + oldTitle is left as it is. */
  lemma NoReferenceUnchanged(text: string, oldTitle: string, newTitle: string)
    requires forall k :: 0 <= k <= |text| ==> !OccursAt(text, "[[" + oldTitle, k) && !OccursAt(text, "](" + oldTitle, k)
    ensures RewriteLinks(text, oldTitle, newTitle) == text
  {
    SubWikiUnchanged(text, oldTitle, newTitle, 0);
    forall k | 0 <= k <= |text|
      ensures MdAt(text, k, oldTitle) == None
    {
      if k < |text| && text[k] == '[' {
        var c := IndexOfFrom(text, ']', k + 1);
        assert !OccursAt(text, "](" + oldTitle, c);
      }
    }
    SubMdUnchanged(text, oldTitle, newTitle, 0);
  }

  /** Where no wikilink starts in text[i..p], the substitution copies that stretch as it is. */
  lemma {:induction false} SubWikiCopies(text: string, oldTitle: string, newTitle: string, i: nat, p: nat)
    requires i <= p <= |text|
    requires forall k :: i <= k < p ==> NoWikiAt(text, k, oldTitle)
    ensures SubWiki(text, oldTitle, newTitle, i) == text[i..p] + SubWiki(text, oldTitle, newTitle, p)
    decreases p - i
  {
    if i < p {
      var rest := SubWiki(text, oldTitle, newTitle, p);
      SubWikiSkip(text, oldTitle, newTitle, i);
      SubWikiCopies(text, oldTitle, newTitle, i + 1, p);
      assert text[i..p] + rest == [text[i]] + (text[i + 1..p] + rest);
    }
  }

  /** No wikilink match starts at k. */
  predicate NoWikiAt(text: string, k: nat, oldTitle: string)
  {
    k <= |text| && WikiAt(text, k, oldTitle).None?
  }

  lemma SubWikiSkip(text: string, oldTitle: string, newTitle: string, i: nat)
    requires i < |text| && NoWikiAt(text, i, oldTitle)
    ensures SubWiki(text, oldTitle, newTitle, i) == [text[i]] + SubWiki(text, oldTitle, newTitle, i + 1)
  {
  }

  /** Where no markdown link starts in text[i..p], the substitution copies that stretch as it is. */
  lemma {:induction false} SubMdCopies(text: string, oldTitle: string, newTitle: string, i: nat, p: nat)
    requires i <= p <= |text|
    requires forall k :: i <= k < p ==> NoMdAt(text, k, oldTitle)
    ensures SubMd(text, oldTitle, newTitle, i) == text[i..p] + SubMd(text, oldTitle, newTitle, p)
    decreases p - i
  {
    if i < p {
      var rest := SubMd(text, oldTitle, newTitle, p);
      SubMdSkip(text, oldTitle, newTitle, i);
      SubMdCopies(text, oldTitle, newTitle, i + 1, p);
      assert text[i..p] + rest == [text[i]] + (text[i + 1..p] + rest);
    }
  }

  /** No markdown-link match starts at k. */
  predicate NoMdAt(text: string, k: nat, oldTitle: string)
  {
    k <= |text| && MdAt(text, k, oldTitle).None?
  }

  lemma SubMdSkip(text: string, oldTitle: string, newTitle: string, i: nat)
    requires i < |text| && NoMdAt(text, i, oldTitle)
    ensures SubMd(text, oldTitle, newTitle, i) == [text[i]] + SubMd(text, oldTitle, newTitle, i + 1)
  {
  }

  /** At the start of a wikilink [[oldTitle + alias]] the substitution writes [[newTitle + alias]] and goes on after it. */
  lemma SubWikiAtLink(text: string, i: nat, oldTitle: string, newTitle: string, alias: string)
    requires ValidAlias(alias) && OccursAt(text, WikiText(oldTitle, alias), i)
    ensures SubWiki(text, oldTitle, newTitle, i) ==
      WikiText(newTitle, alias) + SubWiki(text, oldTitle, newTitle, i + |WikiText(oldTitle, alias)|)
  {
    WikiTextLength(oldTitle, alias);
    WikiAtComplete(text, i, oldTitle, alias);
    SubWikiMatch(text, oldTitle, newTitle, i, WikiLink(i + |WikiText(oldTitle, alias)|, alias));
  }

  lemma WikiTextLength(title: string, alias: string)
    ensures |WikiText(title, alias)| == |title| + |alias| + 4
  {
  }

  lemma SubWikiMatch(text: string, oldTitle: string, newTitle: string, i: nat, m: WikiLink)
    requires i < |text| && WikiAt(text, i, oldTitle) == Some(m)
    ensures SubWiki(text, oldTitle, newTitle, i) == WikiText(newTitle, m.alias) + SubWiki(text, oldTitle, newTitle, m.end)
  {
  }

  /** At the start of a markdown link [caption](oldTitle + ext) the substitution writes [caption](newTitle + ext) and goes on after it. */
  lemma SubMdAtLink(text: string, i: nat, oldTitle: string, newTitle: string, caption: string, ext: string)
    requires ValidCaption(caption) && (ext == [] || ext == ".md")
    requires OccursAt(text, MdText(caption, oldTitle, ext), i)
    ensures SubMd(text, oldTitle, newTitle, i) ==
      MdText(caption, newTitle, ext) + SubMd(text, oldTitle, newTitle, i + |MdText(caption, oldTitle, ext)|)
  {
    MdTextLength(caption, oldTitle, ext);
    MdAtComplete(text, i, oldTitle, caption, ext);
    SubMdMatch(text, oldTitle, newTitle, i, MdLink(i + |MdText(caption, oldTitle, ext)|, caption, ext));
  }

  lemma MdTextLength(caption: string, title: string, ext: string)
    ensures |MdText(caption, title, ext)| == |caption| + |title| + |ext| + 4
  {
  }

  lemma SubMdMatch(text: string, oldTitle: string, newTitle: string, i: nat, m: MdLink)
    requires i < |text| && MdAt(text, i, oldTitle) == Some(m)
    ensures SubMd(text, oldTitle, newTitle, i) == MdText(m.caption, newTitle, m.ext) + SubMd(text, oldTitle, newTitle, m.end)
  {
  }

  /**
   * A wikilink [[oldTitle + alias]] at p, after a stretch text[i..p] where no
   * wikilink match starts, is rewritten to [[newTitle + alias]]: the stretch
   * is kept and the substitution goes on after the link.
   */
  lemma SubWikiSplice(text: string, i: nat, p: nat, oldTitle: string, newTitle: string, alias: string)
    requires i <= p && ValidAlias(alias) && OccursAt(text, WikiText(oldTitle, alias), p)
    requires forall k :: i <= k < p ==> WikiAt(text, k, oldTitle).None?
    ensures SubWiki(text, oldTitle, newTitle, i) ==
      text[i..p] + WikiText(newTitle, alias) + SubWiki(text, oldTitle, newTitle, p + |WikiText(oldTitle, alias)|)
  {
    SubWikiCopies(text, oldTitle, newTitle, i, p);
    SubWikiAtLink(text, p, oldTitle, newTitle, alias);
  }

  /**
   * A markdown link [caption](oldTitle + ext) at p, after a stretch
   * text[i..p] where no markdown-link match starts, is rewritten to
   * [caption](newTitle + ext): the stretch is kept and the substitution goes
   * on after the link.
   */
  lemma SubMdSplice(text: string, i: nat, p: nat, oldTitle: string, newTitle: string, caption: string, ext: string)
    requires i <= p && ValidCaption(caption) && (ext == [] || ext == ".md")
    requires OccursAt(text, MdText(caption, oldTitle, ext), p)
    requires forall k :: i <= k < p ==> MdAt(text, k, oldTitle).None?
    ensures SubMd(text, oldTitle, newTitle, i) ==
      text[i..p] + MdText(caption, newTitle, ext) + SubMd(text, oldTitle, newTitle, p + |MdText(caption, oldTitle, ext)|)
  {
    SubMdCopies(text, oldTitle, newTitle, i, p);
    SubMdAtLink(text, p, oldTitle, newTitle, caption, ext);
  }

  /** A text without '(' holds no markdown link to any title. */
  lemma NoParenNoMdLink(text: string, oldTitle: string)
    requires '(' !in text
    ensures forall k :: 0 <= k <= |text| ==> MdAt(text, k, oldTitle) == None
  {
    forall k | 0 <= k <= |text|
      ensures MdAt(text, k, oldTitle) == None
    {
      if k < |text| && text[k] == '[' {
        SecondCharIn(text, "](" + oldTitle, IndexOfFrom(text, ']', k + 1));
      }
    }
  }

  /** Where p occurs at c, the second character of p is a character of text[1..]. */
  lemma SecondCharIn(text: string, p: string, c: int)
    requires |p| >= 2
    ensures OccursAt(text, p, c) ==> p[1] in text[1..]
  {
    if OccursAt(text, p, c) {
      assert text[1..][c] == text[c..c + |p|][1];
    }
  }

  /**
   * A note holding only [[oldTitle]] or [[oldTitle|alias]] is rewritten to
   * link to newTitle, the alias kept.
   */
  lemma RewriteOneWikiLink(oldTitle: string, newTitle: string, alias: string)
    requires ValidAlias(alias) && '(' !in newTitle && '(' !in alias
    ensures RewriteLinks(WikiText(oldTitle, alias), oldTitle, newTitle) == WikiText(newTitle, alias)
  {
    var text := WikiText(oldTitle, alias);
    var w := WikiText(newTitle, alias);
    assert text[0..|text|] == text;
    SubWikiAtLink(text, 0, oldTitle, newTitle, alias);
    assert SubWiki(text, oldTitle, newTitle, |text|) == [] && w + [] == w;
    assert SubWiki(text, oldTitle, newTitle, 0) == w;
    NoParenInWikiText(newTitle, alias);
    NoParenNoMdLink(w, oldTitle);
    SubMdUnchanged(w, oldTitle, newTitle, 0);
    assert SubMd(w, oldTitle, newTitle, 0) == w;
    assert RewriteLinks(text, oldTitle, newTitle) == SubMd(w, oldTitle, newTitle, 0);
  }

  lemma NoParenInWikiText(title: string, alias: string)
    requires '(' !in title && '(' !in alias
    ensures '(' !in WikiText(title, alias)
  {
    assert WikiText(title, alias) == "[[" + title + alias + "]]";
  }

  /**
   * A note holding only [caption](oldTitle) or [caption](oldTitle.md) is
   * rewritten to [caption](newTitle) or [caption](newTitle.md).
   */
  lemma RewriteOneMdLink(oldTitle: string, newTitle: string, caption: string, ext: string)
    requires ValidCaption(caption) && (ext == [] || ext == ".md") && '[' !in caption && '[' !in oldTitle
    ensures RewriteLinks(MdText(caption, oldTitle, ext), oldTitle, newTitle) == MdText(caption, newTitle, ext)
  {
    var text := MdText(caption, oldTitle, ext);
    NoBracketAfterMdOpen(caption, oldTitle, ext);
    forall k | 0 <= k <= |text|
      ensures WikiAt(text, k, oldTitle) == None
    {
      SecondCharIn(text, "[[" + oldTitle, k);
    }
    SubWikiUnchanged(text, oldTitle, newTitle, 0);
    assert text[0..] == text;
    assert text[0..|text|] == text;
    SubMdAtLink(text, 0, oldTitle, newTitle, caption, ext);
    assert SubMd(text, oldTitle, newTitle, 0) == MdText(caption, newTitle, ext) + [];
  }

  lemma NoBracketAfterMdOpen(caption: string, oldTitle: string, ext: string)
    requires '[' !in caption && '[' !in oldTitle && (ext == [] || ext == ".md")
    ensures '[' !in MdText(caption, oldTitle, ext)[1..]
  {
    assert MdText(caption, oldTitle, ext)[1..] == caption + ("](" + oldTitle) + (ext + ")");
  }
}
