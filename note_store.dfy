/**
 * The note operations of a vault: create, retrieve, replace, append,
 * prepend, delete and move, over the vault's note files seen as a map from
 * resolved path (its components) to text. The existence rules decide which
 * operation may write; `_combine_with_newline` joins appended or prepended
 * text; a move may rewrite the links of every note (module Backlinks).
 */
module NoteStore {
  import opened Text
  import opened Wrappers
  import opened VaultPaths
  import opened Backlinks

  /** A single '\n' goes between left and right: both are non-empty and neither side already has one there. */
  predicate NeedsNewline(left: string, right: string)
  {
    left != [] && right != [] && !EndsWith(left, "\n") && !StartsWith(right, "\n")
  }

  /**
   * `_combine_with_newline`: left followed by right, with one '\n' between
   * them exactly when NeedsNewline holds, and nothing else added.
   */
  function CombineWithNewline(left: string, right: string): (r: string)
    ensures left == [] ==> r == right
    ensures right == [] ==> r == left
    ensures StartsWith(r, left) && EndsWith(r, right)
    ensures |r| == |left| + |right| + (if NeedsNewline(left, right) then 1 else 0)
    ensures NeedsNewline(left, right) ==> r[|left|] == '\n'
  {
    if left == [] then right
    else if right == [] then left
    else if !EndsWith(left, "\n") && !StartsWith(right, "\n") then left + "\n" + right
    else left + right
  }

  /** When both sides are non-empty a line break always sits where they meet. */
  lemma CombineSeparatesLines(left: string, right: string)
    requires left != [] && right != []
    ensures var r := CombineWithNewline(left, right);
      r[|left| - 1] == '\n' || r[|left|] == '\n'
  {
    var r := CombineWithNewline(left, right);
    if !NeedsNewline(left, right) {
      assert r == left + right;
      if EndsWith(left, "\n") {
        assert left[|left| - 1..] == "\n";
        assert r[|left| - 1] == left[|left| - 1];
      } else {
        assert right[..1] == "\n";
        assert r[|left|] == right[0];
      }
    }
  }

  /** What `_combine_with_newline` puts between its two sides. */
  function Separator(left: string, right: string): string
  {
    if NeedsNewline(left, right) then "\n" else ""
  }

  lemma CombineIsJoin(left: string, right: string)
    ensures CombineWithNewline(left, right) == left + Separator(left, right) + right
  {
  }

  /** A combination with a non-empty right side ends the way that side ends. */
  lemma CombineEnd(a: string, b: string)
    requires b != []
    ensures var ab := CombineWithNewline(a, b); ab != [] && EndsWith(ab, "\n") == EndsWith(b, "\n")
  {
    CombineIsJoin(a, b);
    var ab := CombineWithNewline(a, b);
    assert ab[|ab| - 1..] == b[|b| - 1..] by {
      LastOfAppend(a + Separator(a, b), b);
    }
  }

  /** A combination with a non-empty left side starts the way that side starts. */
  lemma CombineStart(b: string, c: string)
    requires b != []
    ensures var bc := CombineWithNewline(b, c); bc != [] && StartsWith(bc, "\n") == StartsWith(b, "\n")
  {
    CombineIsJoin(b, c);
    var bc := CombineWithNewline(b, c);
    assert bc[..1] == b[..1] by {
      FirstOfAppend(b, Separator(b, c) + c);
      assert bc == b + (Separator(b, c) + c);
    }
  }

  /** Appending b then c gives the text that appending their combination gives. */
  lemma CombineAssociative(a: string, b: string, c: string)
    ensures CombineWithNewline(CombineWithNewline(a, b), c) == CombineWithNewline(a, CombineWithNewline(b, c))
  {
    if b != [] {
      var ab := CombineWithNewline(a, b);
      var bc := CombineWithNewline(b, c);
      CombineEnd(a, b);
      CombineStart(b, c);
      assert Separator(ab, c) == Separator(b, c);
      assert Separator(a, bc) == Separator(a, b);
      CombineIsJoin(a, b);
      CombineIsJoin(b, c);
      CombineIsJoin(ab, c);
      CombineIsJoin(a, bc);
      Append5(a, Separator(a, b), b, Separator(b, c), c);
    }
  }

  /** Every note under rewritten links: the text each note holds once the move's backlink pass is over. */
  function RewriteAll(notes: map<seq<string>, string>, oldTitle: string, newTitle: string): (r: map<seq<string>, string>)
    ensures r.Keys == notes.Keys
  {
    map p | p in notes :: RewriteLinks(notes[p], oldTitle, newTitle)
  }

  /** The notes whose text the backlink pass changes, so rewrites and counts. */
  function Changed(notes: map<seq<string>, string>, oldTitle: string, newTitle: string): (r: set<seq<string>>)
    ensures r <= notes.Keys
  {
    set p | p in notes && RewriteLinks(notes[p], oldTitle, newTitle) != notes[p]
  }

  /** The vault after `old_path.rename(new_path)`. */
  function Renamed(notes: map<seq<string>, string>, from: seq<string>, to: seq<string>): (r: map<seq<string>, string>)
    requires from in notes
    ensures r.Keys == notes.Keys - {from} + {to}
    ensures r[to] == notes[from]
    ensures forall p :: p in notes && p != from && p != to ==> r[p] == notes[p]
  {
    (notes - {from})[to := notes[from]]
  }

  /** A pass renaming a title to itself rewrites nothing and counts nothing. */
  lemma SameTitleRewritesNothing(notes: map<seq<string>, string>, title: string)
    ensures RewriteAll(notes, title, title) == notes
    ensures Changed(notes, title, title) == {}
  {
    forall p | p in notes
      ensures RewriteLinks(notes[p], title, title) == notes[p]
    {
      RewriteSameTitle(notes[p], title);
    }
  }

  /** Only a note that mentions the old title can be rewritten. */
  lemma ChangedOnlyIfReferenced(notes: map<seq<string>, string>, oldTitle: string, newTitle: string, p: seq<string>)
    requires p in Changed(notes, oldTitle, newTitle)
    ensures exists k :: 0 <= k <= |notes[p]| && (OccursAt(notes[p], "[[" + oldTitle, k) || OccursAt(notes[p], "](" + oldTitle, k))
  {
    var text := notes[p];
    if forall k :: 0 <= k <= |text| ==> !OccursAt(text, "[[" + oldTitle, k) && !OccursAt(text, "](" + oldTitle, k) {
      NoReferenceUnchanged(text, oldTitle, newTitle);
    }
  }

  /** Taking p off the pending set adds one to the changed notes done exactly when p is changed. */
  lemma CountStep<T>(changed: set<T>, pending: set<T>, p: T)
    requires p in pending
    ensures |changed - (pending - {p})| == |changed - pending| + (if p in changed then 1 else 0)
  {
    if p in changed {
      assert changed - (pending - {p}) == (changed - pending) + {p};
    } else {
      assert changed - (pending - {p}) == changed - pending;
    }
  }

  /** The notes while the backlink pass runs: those still pending keep their text. */
  function PartlyRewritten(notes: map<seq<string>, string>, pending: set<seq<string>>, oldTitle: string, newTitle: string): map<seq<string>, string>
  {
    map p | p in notes :: if p in pending then notes[p] else RewriteLinks(notes[p], oldTitle, newTitle)
  }

  /** One step of the pass: p gets its rewritten text, which is its own text when nothing changed. */
  lemma RewriteStep(notes: map<seq<string>, string>, pending: set<seq<string>>, oldTitle: string, newTitle: string, p: seq<string>)
    requires p in pending && pending <= notes.Keys
    ensures var now := PartlyRewritten(notes, pending, oldTitle, newTitle);
      p in now && now[p] == notes[p] &&
      PartlyRewritten(notes, pending - {p}, oldTitle, newTitle) == now[p := RewriteLinks(notes[p], oldTitle, newTitle)] &&
      (RewriteLinks(notes[p], oldTitle, newTitle) == notes[p] ==> PartlyRewritten(notes, pending - {p}, oldTitle, newTitle) == now)
    ensures PartlyRewritten(notes, notes.Keys, oldTitle, newTitle) == notes
    ensures PartlyRewritten(notes, {}, oldTitle, newTitle) == RewriteAll(notes, oldTitle, newTitle)
  {
  }

  /** Why an operation refused: the errors the Python code raises. */
  datatype StoreError =
    | VaultMissing             // FileNotFoundError of ensure_vault_ready
    | BadPath(reason: PathError) // ValueError of resolve_note_path
    | NotFound(note: string)   // FileNotFoundError naming the note
    | AlreadyExists(note: string) // FileExistsError naming the note

  /**
   * A vault: its resolved root, whether its directory is there, and its note
   * files by resolved path.
   */
  class Vault {
    const root: seq<string>
    const ready: bool
    var notes: map<seq<string>, string>

    constructor (root: seq<string>, ready: bool, notes: map<seq<string>, string>)
      ensures this.root == root && this.ready == ready && this.notes == notes
    {
      this.root := root;
      this.ready := ready;
      this.notes := notes;
    }

    /**
     * `ensure_vault_ready` followed by `resolve_note_path`: the path the title
     * names, always inside the vault root.
     */
    function Target(title: string): (r: Result<seq<string>, StoreError>)
      ensures !ready ==> r == Err(VaultMissing)
      ensures ready ==> (r.Ok? <==> ResolveNotePath(root, title).Ok?)
      ensures r.Ok? ==> IsPrefix(root, r.value) && r.value == Resolve(root, ConstructNotePath(title))
    {
      if !ready then Err(VaultMissing)
      else match ResolveNotePath(root, title)
        case Ok(p) => Ok(p)
        case Err(e) => Err(BadPath(e))
    }

    /** `note_display_name` of a path inside the vault. */
    function Display(path: seq<string>): string
      requires IsPrefix(root, path)
    {
      NoteDisplayName(root, path).value
    }

    /** `create_note`: writes a new note, and never over an existing one. */
    method Create(title: string, content: string) returns (r: Result<string, StoreError>)
      modifies this
      ensures Target(title).Err? ==> r == Err(Target(title).error) && notes == old(notes)
      ensures Target(title).Ok? && Target(title).value in old(notes) ==>
        r == Err(AlreadyExists(Display(Target(title).value))) && notes == old(notes)
      ensures Target(title).Ok? && Target(title).value !in old(notes) ==>
        r == Ok(Display(Target(title).value)) && notes == old(notes)[Target(title).value := content]
    {
      var target := Target(title);
      if target.Err? {
        return Err(target.error);
      }
      var path := target.value;
      if path in notes {
        return Err(AlreadyExists(Display(path)));
      }
      notes := notes[path := content];
      r := Ok(Display(path));
    }

    /** `retrieve_note`: the text of an existing note. */
    method Retrieve(title: string) returns (r: Result<string, StoreError>)
      ensures Target(title).Err? ==> r == Err(Target(title).error)
      ensures Target(title).Ok? && Target(title).value !in notes ==> r == Err(NotFound(Display(Target(title).value)))
      ensures Target(title).Ok? && Target(title).value in notes ==> r == Ok(notes[Target(title).value])
    {
      var target := Target(title);
      if target.Err? {
        return Err(target.error);
      }
      var path := target.value;
      if path !in notes {
        return Err(NotFound(Display(path)));
      }
      r := Ok(notes[path]);
    }

    /** `replace_note`: an existing note's whole text becomes content. */
    method Replace(title: string, content: string) returns (r: Result<string, StoreError>)
      modifies this
      ensures Target(title).Err? ==> r == Err(Target(title).error) && notes == old(notes)
      ensures Target(title).Ok? && Target(title).value !in old(notes) ==>
        r == Err(NotFound(Display(Target(title).value))) && notes == old(notes)
      ensures Target(title).Ok? && Target(title).value in old(notes) ==>
        r == Ok(Display(Target(title).value)) && notes == old(notes)[Target(title).value := content]
    {
      var target := Target(title);
      if target.Err? {
        return Err(target.error);
      }
      var path := target.value;
      if path !in notes {
        return Err(NotFound(Display(path)));
      }
      notes := notes[path := content];
      r := Ok(Display(path));
    }

    /** `append_to_note`: the note becomes its text combined with content. */
    method Append(title: string, content: string) returns (r: Result<string, StoreError>)
      modifies this
      ensures Target(title).Err? ==> r == Err(Target(title).error) && notes == old(notes)
      ensures Target(title).Ok? && Target(title).value !in old(notes) ==>
        r == Err(NotFound(Display(Target(title).value))) && notes == old(notes)
      ensures Target(title).Ok? && Target(title).value in old(notes) ==>
        var path := Target(title).value;
        r == Ok(Display(path)) && notes == old(notes)[path := CombineWithNewline(old(notes)[path], content)]
    {
      var target := Target(title);
      if target.Err? {
        return Err(target.error);
      }
      var path := target.value;
      if path !in notes {
        return Err(NotFound(Display(path)));
      }
      var existing := notes[path];
      notes := notes[path := CombineWithNewline(existing, content)];
      r := Ok(Display(path));
    }

    /** `prepend_to_note`: the note becomes content combined with its text. */
    method Prepend(title: string, content: string) returns (r: Result<string, StoreError>)
      modifies this
      ensures Target(title).Err? ==> r == Err(Target(title).error) && notes == old(notes)
      ensures Target(title).Ok? && Target(title).value !in old(notes) ==>
        r == Err(NotFound(Display(Target(title).value))) && notes == old(notes)
      ensures Target(title).Ok? && Target(title).value in old(notes) ==>
        var path := Target(title).value;
        r == Ok(Display(path)) && notes == old(notes)[path := CombineWithNewline(content, old(notes)[path])]
    {
      var target := Target(title);
      if target.Err? {
        return Err(target.error);
      }
      var path := target.value;
      if path !in notes {
        return Err(NotFound(Display(path)));
      }
      var existing := notes[path];
      notes := notes[path := CombineWithNewline(content, existing)];
      r := Ok(Display(path));
    }

    /** `delete_note`: removes an existing note. */
    method Delete(title: string) returns (r: Result<string, StoreError>)
      modifies this
      ensures Target(title).Err? ==> r == Err(Target(title).error) && notes == old(notes)
      ensures Target(title).Ok? && Target(title).value !in old(notes) ==>
        r == Err(NotFound(Display(Target(title).value))) && notes == old(notes)
      ensures Target(title).Ok? && Target(title).value in old(notes) ==>
        r == Ok(Display(Target(title).value)) && notes == old(notes) - {Target(title).value}
    {
      var target := Target(title);
      if target.Err? {
        return Err(target.error);
      }
      var path := target.value;
      if path !in notes {
        return Err(NotFound(Display(path)));
      }
      notes := notes - {path};
      r := Ok(Display(path));
    }

    /**
     * `_update_backlinks`: visits every note once, rewrites its links, and
     * writes and counts it when the text changed.
     */
    method UpdateBacklinks(oldTitle: string, newTitle: string) returns (count: nat)
      modifies this
      ensures notes == RewriteAll(old(notes), oldTitle, newTitle)
      ensures count == |Changed(old(notes), oldTitle, newTitle)|
    {
      ghost var before := notes;
      ghost var changed := Changed(before, oldTitle, newTitle);
      var pending := notes.Keys;
      count := 0;
      while pending != {}
        invariant pending <= before.Keys
        invariant notes == PartlyRewritten(before, pending, oldTitle, newTitle)
        invariant count == |changed - pending|
        decreases pending
      {
        var p :| p in pending;
        var content := notes[p];
        var updated := RewriteLinks(content, oldTitle, newTitle);
        CountStep(changed, pending, p);
        RewriteStep(before, pending, oldTitle, newTitle, p);
        if updated != content {
          notes := notes[p := updated];
          count := count + 1;
        }
        pending := pending - {p};
      }
      assert changed - pending == changed;
    }

    /**
     * `move_note`: renames an existing note to a free path, then optionally
     * rewrites the links to it across the vault, returning how many notes
     * changed. Moving a note onto its own path renames nothing and rewrites
     * no text.
     */
    method Move(oldTitle: string, newTitle: string, updateLinks: bool) returns (r: Result<nat, StoreError>)
      modifies this
      ensures Target(oldTitle).Err? ==> r == Err(Target(oldTitle).error) && notes == old(notes)
      ensures Target(oldTitle).Ok? && Target(newTitle).Err? ==> r == Err(Target(newTitle).error) && notes == old(notes)
      ensures Target(oldTitle).Ok? && Target(newTitle).Ok? ==>
        var from, to := Target(oldTitle).value, Target(newTitle).value;
        if from !in old(notes) then r == Err(NotFound(Display(from))) && notes == old(notes)
        else if from == to then r == Ok(0) && notes == old(notes)
        else if to in old(notes) then r == Err(AlreadyExists(Display(to))) && notes == old(notes)
        else
          var moved := Renamed(old(notes), from, to);
          if updateLinks then
            r == Ok(|Changed(moved, Display(from), Display(to))|) && notes == RewriteAll(moved, Display(from), Display(to))
          else r == Ok(0) && notes == moved
    {
      var source := Target(oldTitle);
      if source.Err? {
        return Err(source.error);
      }
      var target := Target(newTitle);
      if target.Err? {
        return Err(target.error);
      }
      var from, to := source.value, target.value;
      if from !in notes {
        return Err(NotFound(Display(from)));
      }
      if from == to {
        var linksUpdated := 0;
        if updateLinks {
          SameTitleRewritesNothing(notes, Display(from));
          linksUpdated := UpdateBacklinks(Display(from), Display(to));
        }
        return Ok(linksUpdated);
      }
      if to in notes {
        return Err(AlreadyExists(Display(to)));
      }
      var oldDisplay := Display(from);
      notes := Renamed(notes, from, to);
      var linksUpdated := 0;
      if updateLinks {
        linksUpdated := UpdateBacklinks(oldDisplay, Display(to));
      }
      r := Ok(linksUpdated);
    }
  }
}
