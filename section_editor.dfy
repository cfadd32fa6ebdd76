/**
 * The text splices of section_operations.py: insert after a heading, append
 * to a section, replace a section, delete a section. Each takes the note's
 * text and returns the new text (the caller writes it back), or the error
 * raised when the heading cannot be located.
 */
module SectionEditor {
  import opened Text
  import opened Wrappers
  import opened HeadingIndex

  /** The outcome of an edit: the new note text and the title of the heading edited. */
  datatype Edit = Edit(text: string, heading: string)

  predicate AllNewlines(s: string)
  {
    forall i :: 0 <= i < |s| ==> s[i] == '\n'
  }

  predicate EndsInNewline(s: string) { s != [] && s[|s| - 1] == '\n' }

  predicate StartsWithNewline(s: string) { s != [] && s[0] == '\n' }

  // ------------------------------------------------------ insert_after_heading

  /**
   * The block insert_after_heading puts at the heading's end: the content,
   * with a '\n' in front when it would otherwise continue the heading line
   * and a '\n' behind when the following text would continue its last line.
   * Nothing is added that is not needed, and empty content inserts nothing.
   */
  function AfterHeadingBlock(before: string, after: string, content: string): (block: string)
    ensures content == [] ==> block == []
    ensures content != [] ==>
      (block == content || block == "\n" + content || block == content + "\n" || block == "\n" + content + "\n")
    ensures content != [] ==> (before == [] || EndsInNewline(before) || StartsWithNewline(block))
    ensures content != [] ==> (after == [] || StartsWithNewline(after) || EndsInNewline(block))
    ensures |block| == |content|
      + (if content != [] && before != [] && !EndsInNewline(before) && !StartsWithNewline(content) then 1 else 0)
      + (if content != [] && !EndsInNewline(content) && after != [] && !StartsWithNewline(after) then 1 else 0)
  {
    if content == [] then []
    else
      var lead := if before != [] && !EndsInNewline(before) && !StartsWithNewline(content) then "\n" + content else content;
      if !EndsInNewline(lead) && after != [] && !StartsWithNewline(after) then lead + "\n" else lead
  }

  /**
   * insert_after_heading: the text cut at the located heading's end, with the
   * block inserted there; the heading-not-found error otherwise.
   */
  function InsertAfterHeading(text: string, heading: string, content: string): (r: Result<Edit, HeadingError>)
    ensures r.Err? <==> Locate(text, heading).Err?
    ensures r.Err? ==> r.error == HeadingNotFound(heading)
    ensures r.Ok? ==>
      var h := Locate(text, heading).value.Found();
      h.end <= |text|
      && r.value.text == text[..h.end] + AfterHeadingBlock(text[..h.end], text[h.end..], content) + text[h.end..]
      && r.value.heading == h.title
  {
    var loc :- Locate(text, heading);
    var pos := loc.Found().end;
    var before := text[..pos];
    var after := text[pos..];
    Ok(Edit(before + AfterHeadingBlock(before, after, content) + after, loc.Found().title))
  }

  /** Empty content leaves the note as it was. */
  lemma InsertEmptyIsIdentity(text: string, heading: string)
    requires Locate(text, heading).Ok?
    ensures InsertAfterHeading(text, heading, []) == Ok(Edit(text, Locate(text, heading).value.Found().title))
  {
    var h := Locate(text, heading).value.Found();
    Rejoin(text, h.end, []);
  }

  // ------------------------------------------------------- append_to_section

  /** Dropping the '\n's around a block whose own ends are not '\n'. */
  lemma StripNewlinesAround(lead: string, m: string, tail: string)
    requires AllNewlines(lead) && AllNewlines(tail)
    requires m != [] && m[0] != '\n' && m[|m| - 1] != '\n'
    ensures LStrip(RStrip(lead + m + tail, IsNewline), IsNewline) == m
  {
    RStripNewlines(lead + m, tail);
    LStripNewlines(lead, m);
  }

  lemma {:induction false} RStripNewlines(x: string, tail: string)
    requires AllNewlines(tail) && x != [] && x[|x| - 1] != '\n'
    ensures RStrip(x + tail, IsNewline) == x
    decreases |tail|
  {
    if tail != [] {
      assert (x + tail)[..|x + tail| - 1] == x + tail[..|tail| - 1];
      RStripNewlines(x, tail[..|tail| - 1]);
    } else {
      assert x + tail == x;
    }
  }

  lemma {:induction false} LStripNewlines(lead: string, x: string)
    requires AllNewlines(lead) && x != [] && x[0] != '\n'
    ensures LStrip(lead + x, IsNewline) == x
    decreases |lead|
  {
    if lead != [] {
      assert (lead + x)[1..] == lead[1..] + x;
      LStripNewlines(lead[1..], x);
    } else {
      assert lead + x == x;
    }
  }

  /** The leading '\n's of s. */
  lemma LeadingNewlines(s: string)
    ensures AllNewlines(s[..|s| - |LStrip(s, IsNewline)|])
    ensures s == s[..|s| - |LStrip(s, IsNewline)|] + LStrip(s, IsNewline)
  {
    LStripSuffix(s, IsNewline);
  }

  /**
   * The '\n's append_to_section puts in front of the appended text m (the
   * content without its leading '\n's, which are lead): none after a body
   * ending in a blank line; the content's own leading '\n's or one '\n' after
   * a body ending in '\n'; a blank line after a body not ending in '\n'; for an
   * empty body, one '\n' unless the text before already ends in one.
   */
  function AppendLead(before: string, body: string, lead: string): (pre: string)
    ensures AllNewlines(lead) ==> AllNewlines(pre)
    ensures EndsWith(before, body) ==> before == [] || EndsInNewline(before) || StartsWithNewline(pre)
    ensures EndsWith(before, body) && body != [] && !EndsInNewline(before) ==> pre == "\n\n"
    ensures body != [] && EndsWith(body, "\n\n") ==> pre == []
  {
    assert EndsWith(before, body) && EndsWith(body, "\n") ==> EndsInNewline(before) by {
      if EndsWith(before, body) && EndsWith(body, "\n") { assert before[|before| - 1] == body[|body| - 1]; }
    }
    if body != [] then
      if EndsWith(body, "\n\n") then ""
      else if EndsWith(body, "\n") then (if lead != [] then lead else "\n")
      else "\n\n"
    else if !EndsWith(before, "\n") then "\n"
    else lead
  }

  /**
   * What append_to_section puts after the appended text: the text never ends
   * in a line break at that point, so one '\n' always ends its line, and a
   * second one leaves a blank line when following text starts right there.
   */
  function AppendTail(after: string): (post: string)
    ensures post == "\n" || post == "\n\n"
    ensures post == "\n\n" <==> after != [] && after[0] != '\n' && after[0] != '\r'
  {
    if after != [] && !(after[0] == '\n' || after[0] == '\r') then "\n\n" else "\n"
  }

  /**
   * The block append_to_section puts between before and after, body being
   * the end of before that is the section's own text (properties in
   * AppendBlockShape, AppendBlockKeepsText and AppendBlockLead).
   */
  function AppendBlock(before: string, body: string, after: string, content: string): string
  {
    var core := RStrip(content, IsLineBreak);
    if core == [] then []
    else
      var m := LStrip(core, IsNewline);
      AppendLead(before, body, core[..|core| - |m|]) + m + AppendTail(after)
  }

  /** The section's own text text[start..pos] is how text[..pos] ends, as AppendBlockLead requires. */
  lemma BodyEndsBefore(text: string, start: nat, pos: nat)
    requires start <= pos <= |text|
    ensures EndsWith(text[..pos], text[start..pos])
  {
    assert text[..pos][pos - (pos - start)..] == text[start..pos];
  }

  /** The text of stripped content, between its leading '\n's and the end, neither starts nor ends in '\n'. */
  lemma CoreParts(content: string)
    ensures var core := RStrip(content, IsLineBreak);
      var m := LStrip(core, IsNewline);
      core != [] ==> m != [] && m[0] != '\n' && m[|m| - 1] != '\n' && AllNewlines(core[..|core| - |m|])
  {
    var core := RStrip(content, IsLineBreak);
    LeadingNewlines(core);
    var m := LStrip(core, IsNewline);
    if core != [] {
      assert core[|core| - 1] != '\n';
      assert m != [] && m[|m| - 1] == core[|core| - 1];
    }
  }

  /**
   * The block always ends in '\n', and in a blank line when the following
   * text does not start with a line break. Content that is empty after
   * stripping its trailing line breaks gives an empty block.
   */
  lemma AppendBlockShape(before: string, body: string, after: string, content: string)
    ensures var core := RStrip(content, IsLineBreak);
      var block := AppendBlock(before, body, after, content);
      && (core == [] <==> block == [])
      && (core != [] ==> EndsInNewline(block))
      && (core != [] && after != [] && after[0] != '\n' && after[0] != '\r' ==> EndsWith(block, "\n\n"))
  {
    var core := RStrip(content, IsLineBreak);
    if core != [] {
      var m := LStrip(core, IsNewline);
      CoreParts(content);
      BlockEnd(AppendLead(before, body, core[..|core| - |m|]), m, AppendTail(after));
    }
  }

  /** The content, stripped of trailing line breaks, keeps its text between the block's '\n's. */
  lemma AppendBlockKeepsText(before: string, body: string, after: string, content: string)
    ensures var core := RStrip(content, IsLineBreak);
      var block := AppendBlock(before, body, after, content);
      core != [] ==> LStrip(RStrip(block, IsNewline), IsNewline) == LStrip(core, IsNewline)
  {
    var core := RStrip(content, IsLineBreak);
    if core != [] {
      var m := LStrip(core, IsNewline);
      CoreParts(content);
      var post := AppendTail(after);
      assert AllNewlines(post);
      StripNewlinesAround(AppendLead(before, body, core[..|core| - |m|]), m, post);
    }
  }

  /**
   * The block starts on a fresh line, after a blank line when the section
   * body does not end in a line break; no '\n' is added in front when the
   * body already ends in a blank line.
   */
  lemma AppendBlockLead(before: string, body: string, after: string, content: string)
    requires EndsWith(before, body)
    ensures var core := RStrip(content, IsLineBreak);
      var block := AppendBlock(before, body, after, content);
      && (core != [] ==> before == [] || EndsInNewline(before) || StartsWithNewline(block))
      && (core != [] && body != [] && !EndsInNewline(before) ==> StartsWith(block, "\n\n"))
      && (core != [] && EndsWith(body, "\n\n") ==> !StartsWithNewline(block))
  {
    var core := RStrip(content, IsLineBreak);
    if core != [] {
      var m := LStrip(core, IsNewline);
      CoreParts(content);
      BlockStart(AppendLead(before, body, core[..|core| - |m|]), m, AppendTail(after));
    }
  }

  /** How pre + m + post ends, for a tail post that is one or two '\n's. */
  lemma BlockEnd(pre: string, m: string, post: string)
    requires post == "\n" || post == "\n\n"
    ensures EndsInNewline(pre + m + post)
    ensures post == "\n\n" ==> EndsWith(pre + m + post, "\n\n")
  {
    var block := pre + m + post;
    assert block[|block| - 1] == post[|post| - 1];
    if post == "\n\n" {
      assert block[|block| - 2..] == post;
    }
  }

  /** How pre + m + post starts, for m not starting with '\n'. */
  lemma BlockStart(pre: string, m: string, post: string)
    requires AllNewlines(pre) && m != [] && m[0] != '\n'
    ensures StartsWithNewline(pre + m + post) <==> pre != []
    ensures pre == "\n\n" ==> StartsWith(pre + m + post, "\n\n")
  {
    var block := pre + m + post;
    if pre != [] {
      assert block[0] == pre[0];
    } else {
      assert block[0] == m[0];
    }
    if pre == "\n\n" {
      assert block[..2] == pre;
    }
  }

  /**
   * Where append_to_section inserts: the start of the very next heading,
   * whatever its level, or the end of the text. No heading starts between the
   * located heading's end and that point, so the block lands at the end of the
   * heading's own text, before any sub-heading.
   */
  function AppendPoint(hs: seq<Heading>, index: nat, textLength: nat): (pos: nat)
    requires index < |hs|
    ensures index + 1 < |hs| ==> pos == hs[index + 1].start
    ensures index + 1 == |hs| ==> pos == textLength
  {
    if index + 1 < |hs| then hs[index + 1].start else textLength
  }

  /** The insertion point lies after the heading and not after the end of its section. */
  lemma AppendPointInSection(text: string, hs: seq<Heading>, index: nat)
    requires WellFormed(text, hs) && index < |hs|
    ensures hs[index].end <= AppendPoint(hs, index, |text|) <= SectionEnd(hs, index, |text|) <= |text|
    ensures forall k :: 0 <= k < |hs| ==>
      !(hs[index].end <= hs[k].start < AppendPoint(hs, index, |text|))
  {
    SectionInsideText(text, hs, index);
    var j := NextBoundary(hs, index, index + 1);
    if index + 1 < |hs| {
      assert hs[index].end <= hs[index + 1].start;
      if j < |hs| && j > index + 1 {
        assert hs[index + 1].end <= hs[j].start;
      }
      forall k | 0 <= k < |hs|
        ensures !(hs[index].end <= hs[k].start < hs[index + 1].start)
      {
        if k <= index {
          assert hs[k].start < hs[k].end;
          if k < index { assert hs[k].end <= hs[index].start; }
        } else if k > index + 1 {
          assert hs[index + 1].end <= hs[k].start;
        }
      }
    }
  }

  /**
   * append_to_section: the text cut at the append point, with the block of
   * AppendBlock inserted there (empty for content made only of line breaks,
   * which leaves the note as it was); the heading-not-found error otherwise.
   */
  function AppendToSection(text: string, heading: string, content: string): (r: Result<Edit, HeadingError>)
    ensures r.Err? <==> Locate(text, heading).Err?
    ensures r.Err? ==> r.error == HeadingNotFound(heading)
    ensures r.Ok? ==>
      var loc := Locate(text, heading).value;
      var h := loc.Found();
      var pos := AppendPoint(loc.headings, loc.index, |text|);
      h.end <= pos <= |text|
      && r.value.text == text[..pos] + AppendBlock(text[..pos], text[h.end..pos], text[pos..], content) + text[pos..]
      && r.value.heading == h.title
  {
    var loc :- Locate(text, heading);
    var h := loc.Found();
    AppendPointInSection(text, loc.headings, loc.index);
    var pos := AppendPoint(loc.headings, loc.index, |text|);
    Ok(Edit(text[..pos] + AppendBlock(text[..pos], text[h.end..pos], text[pos..], content) + text[pos..], h.title))
  }

  /** Content made only of line breaks leaves the note as it was. */
  lemma AppendLineBreaksIsIdentity(text: string, heading: string, content: string)
    requires forall i :: 0 <= i < |content| ==> IsLineBreak(content[i])
    requires Locate(text, heading).Ok?
    ensures AppendToSection(text, heading, content).Ok?
    ensures AppendToSection(text, heading, content).value.text == text
  {
    RStripAll(content, IsLineBreak);
    var loc := Locate(text, heading).value;
    var pos := AppendPoint(loc.headings, loc.index, |text|);
    var r := AppendToSection(text, heading, content);
    assert r.Ok?;
    var block := AppendBlock(text[..pos], text[loc.Found().end..pos], text[pos..], content);
    assert r.value.text == text[..pos] + block + text[pos..];
    Rejoin(text, pos, block);
  }

  // --------------------------------------------------------- replace_section

  /**
   * The block replace_section puts between the heading and the following
   * text, after is that text with its leading line breaks removed: the content
   * without trailing line breaks, on a fresh line, then a blank line when text
   * follows or a single '\n' at the end of the note.
   */
  function ReplaceBlock(before: string, after: string, content: string): string
  {
    var rep := FreshLine(before, RStrip(content, IsLineBreak));
    if after != [] then
      var rep := RStrip(rep, IsNewline);
      if rep != [] then rep + "\n\n" else "\n\n"
    else if rep != [] && !EndsInNewline(rep) then rep + "\n"
    else rep
  }

  /** The replacement with a '\n' in front when it would otherwise continue the text before it. */
  function FreshLine(before: string, rep: string): (r: string)
    ensures rep == [] ==> r == []
    ensures rep != [] ==> r == rep || r == "\n" + rep
    ensures r == "\n" + rep <==> before != [] && rep != [] && !EndsInNewline(before) && !StartsWithNewline(rep)
  {
    if before != [] && rep != [] && !EndsInNewline(before) && !StartsWithNewline(rep) then "\n" + rep else rep
  }

  /**
   * The replacement is the content stripped of trailing line breaks, with a
   * '\n' in front exactly when it would otherwise continue the heading line,
   * and then "\n\n" before following text or "\n" at the end of the note;
   * empty content leaves a blank line before following text and nothing at
   * the end of the note.
   */
  lemma ReplaceBlockShape(before: string, after: string, content: string)
    ensures var core := RStrip(content, IsLineBreak);
      var rep := ReplaceBlock(before, after, content);
      && (core == [] && after == [] ==> rep == [])
      && (core == [] && after != [] ==> rep == "\n\n")
      && (core != [] ==> rep == FreshLine(before, core) + (if after != [] then "\n\n" else "\n"))
  {
    var core := RStrip(content, IsLineBreak);
    var rep := FreshLine(before, core);
    if core != [] {
      assert rep[|rep| - 1] == core[|core| - 1];
      assert RStrip(rep, IsNewline) == rep;
    }
  }

  /** The replaced section starts on a fresh line: the heading line is never continued. */
  lemma ReplaceBlockOnFreshLine(before: string, after: string, content: string)
    requires RStrip(content, IsLineBreak) != []
    ensures var rep := ReplaceBlock(before, after, content);
      before == [] || EndsInNewline(before) || StartsWithNewline(rep)
  {
    ReplaceBlockShape(before, after, content);
  }

  /**
   * replace_section: the text up to the heading's end, the replacement block,
   * then the text from the end of the section (the next heading of the same
   * or a higher rank) with its leading line breaks removed; the
   * heading-not-found error otherwise.
   */
  function ReplaceSection(text: string, heading: string, content: string): (r: Result<Edit, HeadingError>)
    ensures r.Err? <==> Locate(text, heading).Err?
    ensures r.Err? ==> r.error == HeadingNotFound(heading)
    ensures r.Ok? ==>
      var loc := Locate(text, heading).value;
      var h := loc.Found();
      var e := SectionEnd(loc.headings, loc.index, |text|);
      var after := LStrip(text[e..], IsLineBreak);
      h.end <= e <= |text|
      && r.value.text == text[..h.end] + ReplaceBlock(text[..h.end], after, content) + after
      && r.value.heading == h.title
  {
    var loc :- Locate(text, heading);
    var h := loc.Found();
    SectionInsideText(text, loc.headings, loc.index);
    var e := SectionEnd(loc.headings, loc.index, |text|);
    var after := LStrip(text[e..], IsLineBreak);
    Ok(Edit(text[..h.end] + ReplaceBlock(text[..h.end], after, content) + after, h.title))
  }

  // ---------------------------------------------------------- delete_section

  predicate HasTripleNewline(s: string)
  {
    exists i :: 0 <= i && i + 2 < |s| && s[i] == '\n' && s[i + 1] == '\n' && s[i + 2] == '\n'
  }

  /** Length of the run of '\n's at the start of s. */
  function NewlineRun(s: string): (n: nat)
    ensures n <= |s|
    ensures forall k :: 0 <= k < n ==> s[k] == '\n'
    ensures n < |s| ==> s[n] != '\n'
  {
    if s == [] || s[0] != '\n' then 0 else 1 + NewlineRun(s[1..])
  }

  /**
   * re.sub(r"\n{3,}", "\n\n", s): every maximal run of three or more '\n's
   * becomes one blank line; shorter runs and all other characters stay.
   */
  function Collapse(s: string): (r: string)
    ensures r == [] <==> s == []
    ensures StartsWithNewline(r) <==> StartsWithNewline(s)
    decreases |s|
  {
    if s == [] then []
    else if s[0] != '\n' then [s[0]] + Collapse(s[1..])
    else
      var n := NewlineRun(s);
      (if n >= 3 then "\n\n" else s[..n]) + Collapse(s[n..])
  }

  /** The run at the front of run + t is run itself when t does not open with '\n'. */
  lemma {:induction false} NewlineRunOf(run: string, t: string)
    requires AllNewlines(run) && !StartsWithNewline(t)
    ensures NewlineRun(run + t) == |run|
    decreases |run|
  {
    if run == [] {
      assert run + t == t;
    } else {
      assert (run + t)[1..] == run[1..] + t;
      NewlineRunOf(run[1..], t);
    }
  }

  /**
   * A maximal run of '\n's becomes exactly "\n\n" when it has three or more,
   * and stays as it is otherwise; the rest is collapsed in turn.
   */
  lemma CollapseRun(run: string, t: string)
    requires run != [] && AllNewlines(run) && !StartsWithNewline(t)
    ensures Collapse(run + t) == (if |run| >= 3 then "\n\n" else run) + Collapse(t)
  {
    NewlineRunOf(run, t);
    var s := run + t;
    assert s[0] == run[0];
    assert s[..|run|] == run && s[|run|..] == t;
  }

  /** The characters of s other than '\n', in order. */
  function Visible(s: string): string
  {
    if s == [] then []
    else if s[0] == '\n' then Visible(s[1..])
    else [s[0]] + Visible(s[1..])
  }

  lemma {:induction false} VisibleAppend(a: string, b: string)
    ensures Visible(a + b) == Visible(a) + Visible(b)
    decreases |a|
  {
    if a == [] {
      assert a + b == b;
    } else {
      assert (a + b)[1..] == a[1..] + b;
      VisibleAppend(a[1..], b);
    }
  }

  lemma {:induction false} VisibleOfNewlines(s: string)
    requires AllNewlines(s)
    ensures Visible(s) == []
    decreases |s|
  {
    if s != [] {
      VisibleOfNewlines(s[1..]);
    }
  }

  /** The collapse removes only '\n's: every other character stays, in order. */
  lemma {:induction false} CollapseKeepsVisible(s: string)
    ensures Visible(Collapse(s)) == Visible(s)
    decreases |s|
  {
    if s == [] {
    } else if s[0] != '\n' {
      CollapseKeepsVisible(s[1..]);
      VisibleAppend([s[0]], Collapse(s[1..]));
    } else {
      var n := NewlineRun(s);
      var run := if n >= 3 then "\n\n" else s[..n];
      CollapseKeepsVisible(s[n..]);
      VisibleAppend(run, Collapse(s[n..]));
      VisibleOfNewlines(run);
      VisibleAppend(s[..n], s[n..]);
      VisibleOfNewlines(s[..n]);
      assert s[..n] + s[n..] == s;
    }
  }

  /** A run of at most two '\n's before text not starting with '\n' makes no triple. */
  lemma ShortRunNoTriple(run: string, t: string)
    requires AllNewlines(run) && |run| <= 2 && !StartsWithNewline(t) && !HasTripleNewline(t)
    ensures !HasTripleNewline(run + t)
  {
    var u := run + t;
    forall i | 0 <= i && i + 2 < |u|
      ensures !(u[i] == '\n' && u[i + 1] == '\n' && u[i + 2] == '\n')
    {
      if i + 2 == |run| || i + 1 == |run| || i == |run| {
        assert u[|run|] == t[0];
      } else if i > |run| {
        assert u[i] == t[i - |run|] && u[i + 1] == t[i - |run| + 1] && u[i + 2] == t[i - |run| + 2];
      }
    }
  }

  /** After the collapse no three '\n's follow each other. */
  lemma {:induction false} CollapseHasNoTriple(s: string)
    ensures !HasTripleNewline(Collapse(s))
    decreases |s|
  {
    if s == [] {
    } else if s[0] != '\n' {
      CollapseHasNoTriple(s[1..]);
      var t := Collapse(s[1..]);
      var u := [s[0]] + t;
      forall i | 0 <= i && i + 2 < |u|
        ensures !(u[i] == '\n' && u[i + 1] == '\n' && u[i + 2] == '\n')
      {
        if i > 0 {
          assert u[i] == t[i - 1] && u[i + 1] == t[i] && u[i + 2] == t[i + 1];
        }
      }
    } else {
      var n := NewlineRun(s);
      CollapseHasNoTriple(s[n..]);
      ShortRunNoTriple(if n >= 3 then "\n\n" else s[..n], Collapse(s[n..]));
    }
  }

  lemma NoTripleInTail(s: string, k: nat)
    requires k <= |s| && !HasTripleNewline(s)
    ensures !HasTripleNewline(s[k..])
  {
    forall i | 0 <= i && i + 2 < |s[k..]|
      ensures !(s[k..][i] == '\n' && s[k..][i + 1] == '\n' && s[k..][i + 2] == '\n')
    {
      assert s[k..][i] == s[k + i] && s[k..][i + 1] == s[k + i + 1] && s[k..][i + 2] == s[k + i + 2];
    }
  }

  lemma RunOfThree(s: string)
    requires NewlineRun(s) >= 3
    ensures HasTripleNewline(s)
  {
    assert s[0] == '\n' && s[1] == '\n' && s[2] == '\n';
  }

  /** Text without three '\n's in a row is left as it is. */
  lemma {:induction false} CollapseWithoutTriple(s: string)
    requires !HasTripleNewline(s)
    ensures Collapse(s) == s
    decreases |s|
  {
    if s == [] {
    } else if s[0] != '\n' {
      NoTripleInTail(s, 1);
      CollapseWithoutTriple(s[1..]);
      assert [s[0]] + s[1..] == s;
    } else {
      var n := NewlineRun(s);
      if n >= 3 {
        RunOfThree(s);
        assert false;
      }
      NoTripleInTail(s, n);
      CollapseWithoutTriple(s[n..]);
      assert s[..n] + s[n..] == s;
    }
  }

  /** Collapsing twice is collapsing once. */
  lemma CollapseIdempotent(s: string)
    ensures Collapse(Collapse(s)) == Collapse(s)
  {
    CollapseHasNoTriple(s);
    CollapseWithoutTriple(Collapse(s));
  }

  /**
   * delete_section: the text before the heading joined to the text from the
   * end of its section, with runs of blank lines collapsed; the
   * heading-not-found error otherwise.
   */
  function DeleteSection(text: string, heading: string): (r: Result<Edit, HeadingError>)
    ensures r.Err? <==> Locate(text, heading).Err?
    ensures r.Err? ==> r.error == HeadingNotFound(heading)
    ensures r.Ok? ==>
      var loc := Locate(text, heading).value;
      var h := loc.Found();
      var e := SectionEnd(loc.headings, loc.index, |text|);
      h.start <= e <= |text|
      && r.value.text == Collapse(text[..h.start] + text[e..])
      && r.value.heading == h.title
  {
    var loc :- Locate(text, heading);
    var h := loc.Found();
    SectionInsideText(text, loc.headings, loc.index);
    var e := SectionEnd(loc.headings, loc.index, |text|);
    Ok(Edit(Collapse(text[..h.start] + text[e..]), h.title))
  }

  /**
   * After a deletion the note has no run of three '\n's, and its other
   * characters are exactly those before the heading followed by those after
   * the section.
   */
  lemma DeleteSectionShape(text: string, heading: string)
    requires DeleteSection(text, heading).Ok?
    ensures var loc := Locate(text, heading).value;
      var e := SectionEnd(loc.headings, loc.index, |text|);
      var out := DeleteSection(text, heading).value.text;
      loc.Found().start <= e <= |text|
      && !HasTripleNewline(out)
      && Visible(out) == Visible(text[..loc.Found().start]) + Visible(text[e..])
  {
    var loc := Locate(text, heading).value;
    var e := SectionEnd(loc.headings, loc.index, |text|);
    var joined := text[..loc.Found().start] + text[e..];
    CollapseHasNoTriple(joined);
    CollapseKeepsVisible(joined);
    VisibleAppend(text[..loc.Found().start], text[e..]);
  }
}
