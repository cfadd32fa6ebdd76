/**
 * The frontmatter logic of frontmatter_operations.py: the YAML value tree,
 * the sanitiser that makes it safe to dump (`_ensure_valid_yaml`), the
 * recursive merge of updates (`_deep_merge_dicts`), the presence test for a
 * frontmatter block and the decisions of update, replace and delete.
 *
 * YAML parsing and dumping belong to foreign libraries: the dumped size and
 * the dumped text are parameters of the operations that need them.
 */
module Frontmatter {
  import opened Text
  import opened Wrappers

  /** MAX_FRONTMATTER_BYTES. */
  const MaxFrontmatterBytes: nat := 10240

  /** A dictionary key: a string, or any other hashable value YAML can produce (shown by its str()). */
  datatype Key = Name(name: string) | NonString(shown: string)

  /**
   * A YAML value as Python holds it: scalars (a float by its text), dates and
   * datetimes by their isoformat(), lists, tuples, dictionaries as entry
   * sequences in insertion order, and any other Python object by its type name.
   */
  datatype Value =
    | Str(s: string)
    | Int(i: int)
    | Float(repr: string)
    | Bool(b: bool)
    | Null
    | Date(iso: string)
    | DateTime(iso: string)
    | List(items: seq<Value>)
    | Tuple(items: seq<Value>)
    | Map(entries: seq<Entry>)
    | Other(typeName: string)

  datatype Entry = Entry(key: Key, value: Value)

  datatype FrontmatterError =
    | NotADictionary
    | InvalidTopLevelKey
    | InvalidNestedKey(path: string, key: Key)
    | UnsupportedType(path: string, typeName: string)
    | TooLarge
    | PayloadNotADictionary

  // ------------------------------------------------------------ sanitising

  function Digit(d: nat): char
    requires d < 10
  {
    "0123456789"[d]
  }

  /** str(n) for a natural number. */
  function NatToString(n: nat): (s: string)
    ensures s != []
    ensures forall k :: 0 <= k < |s| ==> '0' <= s[k] <= '9'
  {
    if n < 10 then [Digit(n)] else NatToString(n / 10) + [Digit(n % 10)]
  }

  /** The field path of a list element: `path[index]`. */
  function IndexPath(path: string, index: nat): string
  {
    path + "[" + NatToString(index) + "]"
  }

  /** The field path of a dictionary entry: `path.key`, or the key alone at the top. */
  function KeyPath(path: string, key: string): string
  {
    if path != [] then path + "." + key else key
  }

  /** A key the sanitiser accepts: a string that is not blank. */
  predicate ValidKey(k: Key)
  {
    k.Name? && !IsBlank(k.name)
  }

  /**
   * `_sanitize`: scalars pass, dates and datetimes become their isoformat()
   * string, lists and tuples become lists of sanitised items, dictionaries
   * keep their keys (which must be non-blank strings) with sanitised values;
   * any other type is an error naming the field path. The first failure in
   * document order is the one reported.
   */
  function Sanitize(v: Value, path: string): (r: Result<Value, FrontmatterError>)
    ensures v.Date? || v.DateTime? ==> r == Ok(Str(v.iso))
    ensures v.Other? ==> r == Err(UnsupportedType(path, v.typeName))
    decreases v, 1
  {
    match v
    case Str(_) => Ok(v)
    case Int(_) => Ok(v)
    case Float(_) => Ok(v)
    case Bool(_) => Ok(v)
    case Null => Ok(v)
    case Date(iso) => Ok(Str(iso))
    case DateTime(iso) => Ok(Str(iso))
    case List(items) =>
      var out :- SanitizeItems(items, path, 0);
      Ok(List(out))
    case Tuple(items) =>
      var out :- SanitizeItems(items, path, 0);
      Ok(List(out))
    case Map(entries) =>
      var out :- SanitizeEntries(entries, path, 0);
      Ok(Map(out))
    case Other(t) => Err(UnsupportedType(path, t))
  }

  /** The sanitised items[from..], each at its own index path. */
  function SanitizeItems(items: seq<Value>, path: string, from: nat): (r: Result<seq<Value>, FrontmatterError>)
    requires from <= |items|
    ensures r.Ok? ==> |r.value| == |items| - from
    decreases items, 0, |items| - from
  {
    if from == |items| then Ok([])
    else
      var head :- Sanitize(items[from], IndexPath(path, from));
      var tail :- SanitizeItems(items, path, from + 1);
      Ok([head] + tail)
  }

  /** The sanitised entries[from..] of a nested dictionary. */
  function SanitizeEntries(entries: seq<Entry>, path: string, from: nat): (r: Result<seq<Entry>, FrontmatterError>)
    requires from <= |entries|
    ensures r.Ok? ==> |r.value| == |entries| - from
    ensures r.Ok? ==> forall k :: 0 <= k < |r.value| ==> r.value[k].key == entries[from + k].key
    decreases entries, 0, |entries| - from
  {
    if from == |entries| then Ok([])
    else
      var e := entries[from];
      if !ValidKey(e.key) then Err(InvalidNestedKey(path, e.key))
      else
        assert e.value < e;
        var head :- Sanitize(e.value, KeyPath(path, e.key.name));
        var tail :- SanitizeEntries(entries, path, from + 1);
        Ok([Entry(e.key, head)] + tail)
  }

  /**
   * The values the sanitiser accepts, defined on their own: no object of an
   * unsupported type anywhere, and non-blank string keys in every nested
   * dictionary.
   */
  predicate Sanitizable(v: Value)
    decreases v, 1
  {
    match v
    case List(items) => ItemsSanitizable(items, 0)
    case Tuple(items) => ItemsSanitizable(items, 0)
    case Map(entries) => EntriesSanitizable(entries, 0)
    case Other(_) => false
    case _ => true
  }

  predicate ItemsSanitizable(items: seq<Value>, from: nat)
    requires from <= |items|
    decreases items, 0, |items| - from
  {
    from == |items| || (Sanitizable(items[from]) && ItemsSanitizable(items, from + 1))
  }

  predicate EntriesSanitizable(entries: seq<Entry>, from: nat)
    requires from <= |entries|
    decreases entries, 0, |entries| - from
  {
    from == |entries|
    || (ValidKey(entries[from].key)
        && (assert entries[from].value < entries[from]; Sanitizable(entries[from].value))
        && EntriesSanitizable(entries, from + 1))
  }

  /**
   * What the sanitiser produces: scalars, strings, lists and dictionaries
   * with non-blank string keys only (no dates, tuples or other objects).
   */
  predicate YamlSafe(v: Value)
    decreases v, 1
  {
    match v
    case List(items) => ItemsSafe(items, 0)
    case Map(entries) => EntriesSafe(entries, 0)
    case Date(_) => false
    case DateTime(_) => false
    case Tuple(_) => false
    case Other(_) => false
    case _ => true
  }

  predicate ItemsSafe(items: seq<Value>, from: nat)
    requires from <= |items|
    decreases items, 0, |items| - from
  {
    from == |items| || (YamlSafe(items[from]) && ItemsSafe(items, from + 1))
  }

  predicate EntriesSafe(entries: seq<Entry>, from: nat)
    requires from <= |entries|
    decreases entries, 0, |entries| - from
  {
    from == |entries|
    || (ValidKey(entries[from].key)
        && (assert entries[from].value < entries[from]; YamlSafe(entries[from].value))
        && EntriesSafe(entries, from + 1))
  }

  /**
   * The value a sanitizable value becomes, defined on its own: dates and
   * datetimes turn into their text, tuples into lists, and everything else is
   * kept as it is, all the way down.
   */
  function Coerced(v: Value): Value
    decreases v, 1
  {
    match v
    case Date(iso) => Str(iso)
    case DateTime(iso) => Str(iso)
    case List(items) => List(CoercedItems(items, 0))
    case Tuple(items) => List(CoercedItems(items, 0))
    case Map(entries) => Map(CoercedEntries(entries, 0))
    case _ => v
  }

  /** The coerced items[from..]. */
  function CoercedItems(items: seq<Value>, from: nat): (r: seq<Value>)
    requires from <= |items|
    ensures |r| == |items| - from
    decreases items, 0, |items| - from
  {
    if from == |items| then [] else [Coerced(items[from])] + CoercedItems(items, from + 1)
  }

  /** The entries[from..] with their keys kept and their values coerced. */
  function CoercedEntries(entries: seq<Entry>, from: nat): (r: seq<Entry>)
    requires from <= |entries|
    ensures |r| == |entries| - from
    ensures forall k :: 0 <= k < |r| ==> r[k].key == entries[from + k].key
    decreases entries, 0, |entries| - from
  {
    if from == |entries| then []
    else
      assert entries[from].value < entries[from];
      [Entry(entries[from].key, Coerced(entries[from].value))] + CoercedEntries(entries, from + 1)
  }

  lemma {:induction false} CoercedEntriesAt(entries: seq<Entry>, from: nat, k: nat)
    requires from <= k < |entries|
    ensures CoercedEntries(entries, from)[k - from] == Entry(entries[k].key, Coerced(entries[k].value))
    decreases k - from
  {
    if from < k {
      CoercedEntriesAt(entries, from + 1, k);
    }
  }

  /** The sanitiser fails exactly on the values that are not sanitizable. */
  lemma {:induction false} SanitizeOkIff(v: Value, path: string)
    ensures Sanitize(v, path).Ok? <==> Sanitizable(v)
    ensures Sanitize(v, path).Ok? ==> YamlSafe(Sanitize(v, path).value)
    decreases v, 1
  {
    match v
    case List(items) => SanitizeItemsOkIff(items, path, 0);
    case Tuple(items) => SanitizeItemsOkIff(items, path, 0);
    case Map(entries) => SanitizeEntriesOkIff(entries, path, 0);
    case _ =>
  }

  lemma {:induction false} SanitizeItemsOkIff(items: seq<Value>, path: string, from: nat)
    requires from <= |items|
    ensures SanitizeItems(items, path, from).Ok? <==> ItemsSanitizable(items, from)
    ensures SanitizeItems(items, path, from).Ok? ==> ItemsSafe(SanitizeItems(items, path, from).value, 0)
    decreases items, 0, |items| - from
  {
    if from < |items| {
      SanitizeOkIff(items[from], IndexPath(path, from));
      SanitizeItemsOkIff(items, path, from + 1);
      var r := SanitizeItems(items, path, from);
      if r.Ok? {
        var tail := SanitizeItems(items, path, from + 1).value;
        ItemsSafeShift(r.value, tail);
      }
    }
  }

  lemma {:induction false} SanitizeEntriesOkIff(entries: seq<Entry>, path: string, from: nat)
    requires from <= |entries|
    ensures SanitizeEntries(entries, path, from).Ok? <==> EntriesSanitizable(entries, from)
    ensures SanitizeEntries(entries, path, from).Ok? ==> EntriesSafe(SanitizeEntries(entries, path, from).value, 0)
    decreases entries, 0, |entries| - from
  {
    if from < |entries| && ValidKey(entries[from].key) {
      var e := entries[from];
      assert e.value < e;
      SanitizeOkIff(e.value, KeyPath(path, e.key.name));
      SanitizeEntriesOkIff(entries, path, from + 1);
      var r := SanitizeEntries(entries, path, from);
      if r.Ok? {
        var tail := SanitizeEntries(entries, path, from + 1).value;
        EntriesSafeShift(r.value, tail);
      }
    }
  }

  lemma {:induction false} ItemsSafeShift(all: seq<Value>, tail: seq<Value>)
    requires all != [] && all[1..] == tail && YamlSafe(all[0]) && ItemsSafe(tail, 0)
    ensures ItemsSafe(all, 0)
  {
    ItemsSafeFrom(all, 1);
  }

  /** ItemsSafe of a suffix, counted from the start of the suffix or inside the whole. */
  lemma {:induction false} ItemsSafeFrom(all: seq<Value>, from: nat)
    requires from <= |all|
    ensures ItemsSafe(all, from) <==> ItemsSafe(all[from..], 0)
    decreases |all| - from
  {
    if from < |all| {
      ItemsSafeFrom(all, from + 1);
      ItemsSafeFrom(all[from..], 1);
      assert all[from..][1..] == all[from + 1..];
    }
  }

  lemma {:induction false} EntriesSafeShift(all: seq<Entry>, tail: seq<Entry>)
    requires all != [] && all[1..] == tail && ValidKey(all[0].key) && YamlSafe(all[0].value) && EntriesSafe(tail, 0)
    ensures EntriesSafe(all, 0)
  {
    EntriesSafeFrom(all, 1);
  }

  lemma {:induction false} EntriesSafeFrom(all: seq<Entry>, from: nat)
    requires from <= |all|
    ensures EntriesSafe(all, from) <==> EntriesSafe(all[from..], 0)
    decreases |all| - from
  {
    if from < |all| {
      EntriesSafeFrom(all, from + 1);
      EntriesSafeFrom(all[from..], 1);
      assert all[from..][1..] == all[from + 1..];
    }
  }

  /** Sanitising what the sanitiser produced changes nothing. */
  lemma {:induction false} SanitizeSafeIsIdentity(v: Value, path: string)
    requires YamlSafe(v)
    ensures Sanitize(v, path) == Ok(v)
    decreases v, 1
  {
    match v
    case List(items) =>
      SanitizeSafeItems(items, path, 0);
      assert items[0..] == items;
    case Map(entries) =>
      SanitizeSafeEntries(entries, path, 0);
      assert entries[0..] == entries;
    case _ =>
  }

  lemma {:induction false} SanitizeSafeItems(items: seq<Value>, path: string, from: nat)
    requires from <= |items| && ItemsSafe(items, from)
    ensures SanitizeItems(items, path, from) == Ok(items[from..])
    decreases items, 0, |items| - from
  {
    if from == |items| {
      assert items[from..] == [];
    } else {
      SanitizeSafeIsIdentity(items[from], IndexPath(path, from));
      SanitizeSafeItems(items, path, from + 1);
      assert items[from..] == [items[from]] + items[from + 1..];
      assert Sanitize(items[from], IndexPath(path, from)) == Ok(items[from]);
      assert SanitizeItems(items, path, from + 1) == Ok(items[from + 1..]);
      assert SanitizeItems(items, path, from) == Ok([items[from]] + items[from + 1..]);
    }
  }

  lemma {:induction false} SanitizeSafeEntries(entries: seq<Entry>, path: string, from: nat)
    requires from <= |entries| && EntriesSafe(entries, from)
    ensures SanitizeEntries(entries, path, from) == Ok(entries[from..])
    decreases entries, 0, |entries| - from
  {
    if from == |entries| {
      assert entries[from..] == [];
    } else {
      var e := entries[from];
      assert e.value < e;
      SanitizeSafeIsIdentity(e.value, KeyPath(path, e.key.name));
      SanitizeSafeEntries(entries, path, from + 1);
      assert entries[from..] == [Entry(e.key, e.value)] + entries[from + 1..];
    }
  }

  /** On every value it accepts, the sanitiser computes exactly the coerced value. */
  lemma {:induction false} SanitizeIsCoerced(v: Value, path: string)
    requires Sanitizable(v)
    ensures Sanitize(v, path) == Ok(Coerced(v))
    decreases v, 1
  {
    match v
    case List(items) => SanitizeCoercedItems(items, path, 0);
    case Tuple(items) => SanitizeCoercedItems(items, path, 0);
    case Map(entries) => SanitizeCoercedEntries(entries, path, 0);
    case _ =>
  }

  lemma {:induction false} SanitizeCoercedItems(items: seq<Value>, path: string, from: nat)
    requires from <= |items| && ItemsSanitizable(items, from)
    ensures SanitizeItems(items, path, from) == Ok(CoercedItems(items, from))
    decreases items, 0, |items| - from
  {
    if from < |items| {
      SanitizeIsCoerced(items[from], IndexPath(path, from));
      SanitizeCoercedItems(items, path, from + 1);
    }
  }

  lemma {:induction false} SanitizeCoercedEntries(entries: seq<Entry>, path: string, from: nat)
    requires from <= |entries| && EntriesSanitizable(entries, from)
    ensures SanitizeEntries(entries, path, from) == Ok(CoercedEntries(entries, from))
    decreases entries, 0, |entries| - from
  {
    if from < |entries| {
      var e := entries[from];
      assert e.value < e;
      SanitizeIsCoerced(e.value, KeyPath(path, e.key.name));
      SanitizeCoercedEntries(entries, path, from + 1);
    }
  }

  /**
   * In a list or tuple, the first item the sanitiser rejects decides the
   * error; the items before it are all sanitizable.
   */
  lemma {:induction false} SanitizeItemsFirstError(items: seq<Value>, path: string, from: nat, i: nat)
    requires from <= i < |items|
    requires forall j :: from <= j < i ==> Sanitizable(items[j])
    requires Sanitize(items[i], IndexPath(path, i)).Err?
    ensures SanitizeItems(items, path, from) == Err(Sanitize(items[i], IndexPath(path, i)).error)
    decreases i - from
  {
    if from < i {
      SanitizeOkIff(items[from], IndexPath(path, from));
      SanitizeItemsFirstError(items, path, from + 1, i);
    }
  }

  /**
   * In a nested dictionary, the first entry the sanitiser rejects decides the
   * error: its key when that is not a non-blank string, else its value's.
   */
  lemma {:induction false} SanitizeEntriesFirstError(entries: seq<Entry>, path: string, from: nat, i: nat)
    requires from <= i < |entries|
    requires forall j :: from <= j < i ==> ValidKey(entries[j].key) && Sanitizable(entries[j].value)
    requires !ValidKey(entries[i].key) || Sanitize(entries[i].value, KeyPath(path, entries[i].key.name)).Err?
    ensures SanitizeEntries(entries, path, from) ==
      if !ValidKey(entries[i].key) then Err(InvalidNestedKey(path, entries[i].key))
      else Err(Sanitize(entries[i].value, KeyPath(path, entries[i].key.name)).error)
    decreases i - from
  {
    if from < i {
      var e := entries[from];
      assert e.value < e;
      SanitizeOkIff(e.value, KeyPath(path, e.key.name));
      SanitizeEntriesFirstError(entries, path, from + 1, i);
    }
  }

  /**
   * The error names the nested field: an unsupported object at index i of a
   * list at `path` is reported at `path[i]`.
   */
  lemma SanitizeListNamesIndex(items: seq<Value>, path: string, i: nat)
    requires i < |items| && items[i].Other?
    requires forall j :: 0 <= j < i ==> Sanitizable(items[j])
    ensures Sanitize(List(items), path) == Err(UnsupportedType(IndexPath(path, i), items[i].typeName))
  {
    SanitizeItemsFirstError(items, path, 0, i);
  }

  /**
   * In a nested dictionary at `path`, a blank or non-string key is reported
   * with the path, and an unsupported value at `path.key`.
   */
  lemma SanitizeMapNamesKey(entries: seq<Entry>, path: string, i: nat)
    requires i < |entries| && (!ValidKey(entries[i].key) || entries[i].value.Other?)
    requires forall j :: 0 <= j < i ==> ValidKey(entries[j].key) && Sanitizable(entries[j].value)
    ensures !ValidKey(entries[i].key) ==> Sanitize(Map(entries), path) == Err(InvalidNestedKey(path, entries[i].key))
    ensures ValidKey(entries[i].key) ==>
      Sanitize(Map(entries), path) == Err(UnsupportedType(KeyPath(path, entries[i].key.name), entries[i].value.typeName))
  {
    SanitizeEntriesFirstError(entries, path, 0, i);
  }

  /**
   * The top-level loop of `_ensure_valid_yaml` over the first n entries:
   * every key a non-blank string, every value sanitised at its key's path.
   */
  function SanitizeTop(entries: seq<Entry>, n: nat): (r: Result<seq<Entry>, FrontmatterError>)
    requires n <= |entries|
    ensures r.Ok? <==> forall k :: 0 <= k < n ==> ValidKey(entries[k].key) && Sanitizable(entries[k].value)
    ensures r.Ok? ==> |r.value| == n
    ensures r.Ok? ==> forall k :: 0 <= k < n ==> r.value[k] == Entry(entries[k].key, Coerced(entries[k].value))
  {
    if n == 0 then Ok([])
    else
      var done :- SanitizeTop(entries, n - 1);
      var e := entries[n - 1];
      if !ValidKey(e.key) then Err(InvalidTopLevelKey)
      else
        SanitizeOkIff(e.value, e.key.name);
        var v :- Sanitize(e.value, e.key.name);
        SanitizeIsCoerced(e.value, e.key.name);
        Ok(done + [Entry(e.key, v)])
  }

  /**
   * The first top-level entry the loop rejects decides the error: a key that
   * is not a non-blank string, else the error of its value.
   */
  lemma SanitizeTopFirstError(entries: seq<Entry>, n: nat, i: nat)
    requires i < n <= |entries|
    requires forall j :: 0 <= j < i ==> ValidKey(entries[j].key) && Sanitizable(entries[j].value)
    requires !ValidKey(entries[i].key) || Sanitize(entries[i].value, entries[i].key.name).Err?
    ensures SanitizeTop(entries, n) ==
      if !ValidKey(entries[i].key) then Err(InvalidTopLevelKey)
      else Err(Sanitize(entries[i].value, entries[i].key.name).error)
  {
    SanitizeTopErrSticks(entries, i + 1, n);
  }

  /** The first failure of the top-level loop is the one reported. */
  lemma {:induction false} SanitizeTopErrSticks(entries: seq<Entry>, m: nat, n: nat)
    requires m <= n <= |entries| && SanitizeTop(entries, m).Err?
    ensures SanitizeTop(entries, n) == SanitizeTop(entries, m)
    decreases n - m
  {
    if m < n {
      SanitizeTopErrSticks(entries, m, n - 1);
    }
  }

  /**
   * `_ensure_valid_yaml` as a function: the sanitised dictionary, or the
   * error it raises (not a dictionary, a bad key, an unsupported value, or a
   * YAML dump larger than MAX_FRONTMATTER_BYTES, its size given by dumpSize).
   */
  function Validate(metadata: Value, dumpSize: seq<Entry> -> nat): (r: Result<seq<Entry>, FrontmatterError>)
    ensures !metadata.Map? ==> r == Err(NotADictionary)
    ensures r.Ok? <==>
      && metadata.Map?
      && TopSanitizable(metadata.entries)
      && dumpSize(CoercedEntries(metadata.entries, 0)) <= MaxFrontmatterBytes
    ensures r.Ok? ==> r.value == CoercedEntries(metadata.entries, 0)
    ensures (metadata.Map? && TopSanitizable(metadata.entries)
             && dumpSize(CoercedEntries(metadata.entries, 0)) > MaxFrontmatterBytes) ==> r == Err(TooLarge)
  {
    if !metadata.Map? then Err(NotADictionary)
    else
      var sanitized :- SanitizeTop(metadata.entries, |metadata.entries|);
      SanitizeTopIsCoerced(metadata.entries);
      if dumpSize(sanitized) > MaxFrontmatterBytes then Err(TooLarge) else Ok(sanitized)
  }

  /** Every top-level key is a non-blank string and every value sanitizable. */
  predicate TopSanitizable(entries: seq<Entry>)
  {
    forall k :: 0 <= k < |entries| ==> ValidKey(entries[k].key) && Sanitizable(entries[k].value)
  }

  lemma SanitizeTopIsCoerced(entries: seq<Entry>)
    requires SanitizeTop(entries, |entries|).Ok?
    ensures SanitizeTop(entries, |entries|).value == CoercedEntries(entries, 0)
  {
    var r := SanitizeTop(entries, |entries|).value;
    forall k | 0 <= k < |entries|
      ensures r[k] == CoercedEntries(entries, 0)[k]
    {
      CoercedEntriesAt(entries, 0, k);
    }
  }

  /** A successful validation leaves a dictionary the sanitiser would keep as it is. */
  lemma {:induction false} SanitizeTopSafe(entries: seq<Entry>, n: nat)
    requires n <= |entries| && SanitizeTop(entries, n).Ok?
    ensures EntriesSafe(SanitizeTop(entries, n).value, 0)
  {
    if n > 0 {
      var done := SanitizeTop(entries, n - 1).value;
      SanitizeTopSafe(entries, n - 1);
      var e := entries[n - 1];
      SanitizeOkIff(e.value, e.key.name);
      EntriesSafeAppend(done, Entry(e.key, Sanitize(e.value, e.key.name).value));
    }
  }

  lemma {:induction false} EntriesSafeAppend(es: seq<Entry>, e: Entry)
    requires EntriesSafe(es, 0) && ValidKey(e.key) && YamlSafe(e.value)
    ensures EntriesSafe(es + [e], 0)
    decreases |es|
  {
    if es == [] {
      EntriesSafeShift([e], []);
    } else {
      EntriesSafeFrom(es, 1);
      EntriesSafeAppend(es[1..], e);
      assert (es + [e])[1..] == es[1..] + [e];
      EntriesSafeShift(es + [e], es[1..] + [e]);
    }
  }

  lemma {:induction false} SanitizeTopOfSafe(entries: seq<Entry>, n: nat)
    requires n <= |entries| && EntriesSafe(entries, 0)
    ensures SanitizeTop(entries, n) == Ok(entries[..n])
  {
    if n > 0 {
      SanitizeTopOfSafe(entries, n - 1);
      EntriesSafeAt(entries, n - 1);
      var e := entries[n - 1];
      SanitizeSafeIsIdentity(e.value, e.key.name);
      assert entries[..n] == entries[..n - 1] + [Entry(e.key, e.value)];
    }
  }

  lemma {:induction false} EntriesSafeAt(entries: seq<Entry>, i: nat)
    requires i < |entries| && EntriesSafe(entries, 0)
    ensures ValidKey(entries[i].key) && YamlSafe(entries[i].value)
  {
    EntriesSafeFrom(entries, i);
    EntriesSafeFrom(entries, 0);
    EntriesSafeReach(entries, 0, i);
  }

  lemma {:induction false} EntriesSafeReach(entries: seq<Entry>, from: nat, i: nat)
    requires from <= i < |entries| && EntriesSafe(entries, from)
    ensures ValidKey(entries[i].key) && YamlSafe(entries[i].value)
    decreases i - from
  {
    if from < i {
      EntriesSafeReach(entries, from + 1, i);
    }
  }

  /** Validating an already validated dictionary gives it back unchanged. */
  lemma ValidateIdempotent(metadata: Value, dumpSize: seq<Entry> -> nat)
    requires Validate(metadata, dumpSize).Ok?
    ensures Validate(Map(Validate(metadata, dumpSize).value), dumpSize) == Validate(metadata, dumpSize)
  {
    var es := metadata.entries;
    var sanitized := SanitizeTop(es, |es|).value;
    SanitizeTopSafe(es, |es|);
    SanitizeTopOfSafe(sanitized, |sanitized|);
    assert sanitized[..|sanitized|] == sanitized;
  }

  /**
   * The caller's dictionary, which `_ensure_valid_yaml` clears and refills
   * with the sanitised copy on success and leaves alone on failure.
   */
  class Metadata {
    var entries: seq<Entry>

    constructor(entries: seq<Entry>)
      ensures this.entries == entries
    {
      this.entries := entries;
    }

    /** `_ensure_valid_yaml`: sanitise entry by entry, check the size, then replace the contents. */
    method EnsureValidYaml(dumpSize: seq<Entry> -> nat) returns (error: Option<FrontmatterError>)
      modifies this
      ensures var r := Validate(Map(old(entries)), dumpSize);
        && (r.Ok? ==> error == None && entries == r.value)
        && (r.Err? ==> error == Some(r.error) && entries == old(entries))
    {
      var current := entries;
      var sanitized: seq<Entry> := [];
      var i := 0;
      while i < |current|
        invariant 0 <= i <= |current|
        invariant SanitizeTop(current, i) == Ok(sanitized)
      {
        var e := current[i];
        if !ValidKey(e.key) {
          SanitizeTopErrSticks(current, i + 1, |current|);
          return Some(InvalidTopLevelKey);
        }
        var v := Sanitize(e.value, e.key.name);
        if v.Err? {
          SanitizeTopErrSticks(current, i + 1, |current|);
          return Some(v.error);
        }
        sanitized := sanitized + [Entry(e.key, v.value)];
        i := i + 1;
      }
      if dumpSize(sanitized) > MaxFrontmatterBytes {
        return Some(TooLarge);
      }
      entries := sanitized;
      return None;
    }
  }

  // --------------------------------------------------------------- merging

  predicate KeyIn(es: seq<Entry>, k: Key)
  {
    exists i :: 0 <= i < |es| && es[i].key == k
  }

  /** The value stored under k: the first entry with that key. */
  function Lookup(es: seq<Entry>, k: Key): (r: Option<Value>)
    ensures es == [] ==> r == None
  {
    if es == [] then None
    else if es[0].key == k then Some(es[0].value)
    else Lookup(es[1..], k)
  }

  /** A key is found exactly when some entry has it, and what is found is an entry's value. */
  lemma {:induction false} LookupFinds(es: seq<Entry>, k: Key)
    ensures Lookup(es, k).Some? <==> KeyIn(es, k)
    ensures Lookup(es, k).Some? ==> Entry(k, Lookup(es, k).value) in es
  {
    if es != [] && es[0].key != k {
      LookupFinds(es[1..], k);
      if KeyIn(es, k) {
        var i :| 0 <= i < |es| && es[i].key == k;
        assert es[1..][i - 1].key == k;
      }
      if KeyIn(es[1..], k) {
        var i :| 0 <= i < |es[1..]| && es[1..][i].key == k;
        assert es[i + 1].key == k;
      }
    } else if es != [] {
      assert es[0].key == k;
    }
  }

  /** `d[k] = v`: overwrite the value in place when k is present, else add k at the end. */
  function Set(es: seq<Entry>, k: Key, v: Value): (r: seq<Entry>)
    ensures Lookup(r, k) == Some(v)
  {
    if es == [] then [Entry(k, v)]
    else if es[0].key == k then [Entry(k, v)] + es[1..]
    else [es[0]] + Set(es[1..], k, v)
  }

  /** Setting k leaves every other key as it was. */
  lemma {:induction false} SetOther(es: seq<Entry>, k: Key, v: Value, k': Key)
    requires k' != k
    ensures Lookup(Set(es, k, v), k') == Lookup(es, k')
  {
    if es != [] && es[0].key != k {
      SetOther(es[1..], k, v, k');
    }
  }

  /** Python dictionaries never repeat a key. */
  predicate DistinctKeys(es: seq<Entry>)
  {
    forall i, j :: 0 <= i < j < |es| ==> es[i].key != es[j].key
  }

  /** Distinct keys at every level of nesting. */
  predicate DeepDistinct(es: seq<Entry>)
    decreases es, 1
  {
    DistinctKeys(es) && ValuesDeepDistinct(es, 0)
  }

  predicate ValuesDeepDistinct(es: seq<Entry>, from: nat)
    requires from <= |es|
    decreases es, 0, |es| - from
  {
    from == |es|
    || ((assert es[from].value < es[from];
         es[from].value.Map? ==> DeepDistinct(es[from].value.entries))
        && ValuesDeepDistinct(es, from + 1))
  }

  /**
   * What `_deep_merge_dicts` stores under an update key: the recursive merge
   * when both the present value and the update are dictionaries, otherwise
   * the update itself (so lists are replaced, not extended).
   */
  function Combined(present: Option<Value>, update: Value): Value
    decreases update, 2
  {
    if present.Some? && present.value.Map? && update.Map? then
      Map(Merge(present.value.entries, update.entries))
    else update
  }

  /** `_deep_merge_dicts(base, updates)`: the updates applied to a copy of base in their order. */
  function Merge(base: seq<Entry>, updates: seq<Entry>): seq<Entry>
    decreases updates, 1, |updates|, 1
  {
    MergePrefix(base, updates, |updates|)
  }

  /** base after the first n updates. */
  function MergePrefix(base: seq<Entry>, updates: seq<Entry>, n: nat): seq<Entry>
    requires n <= |updates|
    decreases updates, 1, n, 0
  {
    if n == 0 then base
    else
      var merged := MergePrefix(base, updates, n - 1);
      var u := updates[n - 1];
      assert u.value < u;
      Set(merged, u.key, Combined(Lookup(merged, u.key), u.value))
  }

  /** The loop of `_deep_merge_dicts`, recursing on nested dictionaries. */
  method DeepMerge(base: seq<Entry>, updates: seq<Entry>) returns (merged: seq<Entry>)
    ensures merged == Merge(base, updates)
    decreases updates
  {
    merged := base;
    var i := 0;
    while i < |updates|
      invariant 0 <= i <= |updates|
      invariant merged == MergePrefix(base, updates, i)
    {
      var u := updates[i];
      var present := Lookup(merged, u.key);
      if present.Some? && present.value.Map? && u.value.Map? {
        assert u.value < u;
        var inner := DeepMerge(present.value.entries, u.value.entries);
        merged := Set(merged, u.key, Map(inner));
      } else {
        merged := Set(merged, u.key, u.value);
      }
      i := i + 1;
    }
  }

  /** Some of the first n entries has key k. */
  predicate KeyInFirst(es: seq<Entry>, n: nat, k: Key)
    requires n <= |es|
  {
    exists i :: 0 <= i < n && es[i].key == k
  }

  /** The merge state after n updates, key by key. */
  lemma {:induction false} MergePrefixLookup(base: seq<Entry>, updates: seq<Entry>, n: nat, k: Key)
    requires n <= |updates| && DistinctKeys(updates)
    ensures !KeyInFirst(updates, n, k) ==> Lookup(MergePrefix(base, updates, n), k) == Lookup(base, k)
    ensures forall j :: 0 <= j < n && updates[j].key == k ==>
      Lookup(MergePrefix(base, updates, n), k) == Some(Combined(Lookup(base, k), updates[j].value))
  {
    if n > 0 {
      MergePrefixLookup(base, updates, n - 1, k);
      var u := updates[n - 1];
      var merged := MergePrefix(base, updates, n - 1);
      if u.key != k {
        SetOther(merged, u.key, Combined(Lookup(merged, u.key), u.value), k);
        assert KeyInFirst(updates, n, k) ==> KeyInFirst(updates, n - 1, k);
      } else {
        assert forall i :: 0 <= i < n - 1 ==> updates[i].key != updates[n - 1].key;
      }
    }
  }

  /** Base keys that no update names keep their values. */
  lemma MergeKeepsBase(base: seq<Entry>, updates: seq<Entry>, k: Key)
    requires DistinctKeys(updates) && !KeyIn(updates, k)
    ensures Lookup(Merge(base, updates), k) == Lookup(base, k)
  {
    MergePrefixLookup(base, updates, |updates|, k);
  }

  /**
   * An update key holds the recursive merge when the base and the update
   * both hold a dictionary there, and the update value otherwise.
   */
  lemma MergeTakesUpdate(base: seq<Entry>, updates: seq<Entry>, j: nat)
    requires DistinctKeys(updates) && j < |updates|
    ensures Lookup(Merge(base, updates), updates[j].key) == Some(Combined(Lookup(base, updates[j].key), updates[j].value))
  {
    MergePrefixLookup(base, updates, |updates|, updates[j].key);
  }

  /** Lists, like every non-dictionary update, replace what was there. */
  lemma MergeReplacesLists(base: seq<Entry>, updates: seq<Entry>, j: nat)
    requires DistinctKeys(updates) && j < |updates| && updates[j].value.List?
    ensures Lookup(Merge(base, updates), updates[j].key) == Some(updates[j].value)
  {
    MergeTakesUpdate(base, updates, j);
  }

  /** The merged keys are the base keys and the update keys. */
  lemma {:induction false} MergePrefixKeys(base: seq<Entry>, updates: seq<Entry>, n: nat, k: Key)
    requires n <= |updates|
    ensures KeyIn(MergePrefix(base, updates, n), k) <==> KeyIn(base, k) || KeyInFirst(updates, n, k)
  {
    if n > 0 {
      MergePrefixKeys(base, updates, n - 1, k);
      var merged := MergePrefix(base, updates, n - 1);
      var u := updates[n - 1];
      var next := Set(merged, u.key, Combined(Lookup(merged, u.key), u.value));
      LookupFinds(next, k);
      LookupFinds(merged, k);
      if u.key != k {
        SetOther(merged, u.key, Combined(Lookup(merged, u.key), u.value), k);
        assert KeyInFirst(updates, n, k) ==> KeyInFirst(updates, n - 1, k);
      }
    }
  }

  lemma MergeKeys(base: seq<Entry>, updates: seq<Entry>, k: Key)
    ensures KeyIn(Merge(base, updates), k) <==> KeyIn(base, k) || KeyIn(updates, k)
  {
    MergePrefixKeys(base, updates, |updates|, k);
  }

  /** Writing back the value already stored changes nothing. */
  lemma {:induction false} SetPresent(es: seq<Entry>, k: Key)
    requires Lookup(es, k).Some?
    ensures Set(es, k, Lookup(es, k).value) == es
  {
    if es[0].key != k {
      SetPresent(es[1..], k);
      assert [es[0]] + es[1..] == es;
    } else {
      assert [Entry(k, es[0].value)] + es[1..] == es;
    }
  }

  /** Merging distinct-keyed updates into nothing gives the updates. */
  lemma {:induction false} MergeIntoEmpty(updates: seq<Entry>, n: nat)
    requires n <= |updates| && DistinctKeys(updates)
    ensures MergePrefix([], updates, n) == updates[..n]
  {
    if n > 0 {
      MergeIntoEmpty(updates, n - 1);
      var u := updates[n - 1];
      var prefix := updates[..n - 1];
      forall i | 0 <= i < |prefix|
        ensures prefix[i].key != u.key
      {
        assert prefix[i] == updates[i];
      }
      LookupAbsent(prefix, u.key);
      SetAbsent(updates[..n - 1], u.key, u.value);
      assert updates[..n] == updates[..n - 1] + [u];
    }
  }

  lemma LookupAbsent(es: seq<Entry>, k: Key)
    requires !KeyIn(es, k)
    ensures Lookup(es, k) == None
  {
    LookupFinds(es, k);
  }

  lemma {:induction false} SetAbsent(es: seq<Entry>, k: Key, v: Value)
    requires !KeyIn(es, k)
    ensures Set(es, k, v) == es + [Entry(k, v)]
  {
    if es != [] {
      assert !KeyIn(es[1..], k) by {
        forall i | 0 <= i < |es[1..]| ensures es[1..][i].key != k {
          assert es[1..][i] == es[i + 1];
        }
      }
      SetAbsent(es[1..], k, v);
      assert [es[0]] + (es[1..] + [Entry(k, v)]) == es + [Entry(k, v)];
    }
  }

  lemma ValuesDeepDistinctAt(es: seq<Entry>, from: nat, j: nat)
    requires from <= j < |es| && ValuesDeepDistinct(es, from)
    ensures es[j].value.Map? ==> DeepDistinct(es[j].value.entries)
    decreases j - from
  {
    if from < j {
      ValuesDeepDistinctAt(es, from + 1, j);
    }
  }

  /**
   * Merging the same updates twice equals merging them once: every update
   * key already holds what a second merge would write there.
   */
  lemma {:induction false} MergeIdempotent(base: seq<Entry>, updates: seq<Entry>)
    requires DeepDistinct(updates)
    ensures Merge(Merge(base, updates), updates) == Merge(base, updates)
    decreases updates, 0
  {
    var m := Merge(base, updates);
    var n := 0;
    while n < |updates|
      invariant 0 <= n <= |updates|
      invariant MergePrefix(m, updates, n) == m
    {
      var u := updates[n];
      MergeTakesUpdate(base, updates, n);
      var present := Combined(Lookup(base, u.key), u.value);
      assert Lookup(m, u.key) == Some(present);
      assert Combined(Some(present), u.value) == present by {
        if u.value.Map? {
          ValuesDeepDistinctAt(updates, 0, n);
          assert u.value < u;
          var inner := u.value.entries;
          var old_ := Lookup(base, u.key);
          if old_.Some? && old_.value.Map? {
            MergeIdempotent(old_.value.entries, inner);
          } else {
            MergeIdempotent([], inner);
            MergeIntoEmpty(inner, |inner|);
            assert inner[..|inner|] == inner;
          }
        }
      }
      SetPresent(m, u.key);
      n := n + 1;
    }
  }

  // --------------------------------------------------- presence and output

  /**
   * `_frontmatter_present`: false for empty text; otherwise true exactly
   * when the text after its leading white space opens with "---" and the
   * parsed body differs from the raw text. A block is only ever seen in
   * text that holds "---", after nothing but white space.
   */
  function FrontmatterPresent(rawText: string, content: string): (present: bool)
    ensures present ==>
      exists k :: 0 <= k && k + 3 <= |rawText| && rawText[k..k + 3] == "---" && IsBlank(rawText[..k])
  {
    var l := LStrip(rawText, IsSpace);
    LStripSuffix(rawText, IsSpace);
    var k := |rawText| - |l|;
    assert StartsWith(l, "---") ==> rawText[k..k + 3] == l[..3] && IsBlank(rawText[..k]);
    rawText != [] && StartsWith(l, "---") && rawText != content
  }

  /**
   * `_serialize_frontmatter`: the body alone when there is no metadata (no
   * empty block is written); otherwise the foreign dump of both.
   */
  function Serialize(metadata: seq<Entry>, content: string, dump: (seq<Entry>, string) -> string): (text: string)
    ensures metadata == [] ==> text == content
    ensures metadata != [] ==> text == dump(metadata, content)
  {
    if metadata == [] then content else dump(metadata, content)
  }

  // ------------------------------------------------------ sorted key lists

  /** Python's ordering of strings: code point by code point, a prefix first. */
  predicate LexLe(a: string, b: string)
  {
    a == [] || (b != [] && (a[0] < b[0] || (a[0] == b[0] && LexLe(a[1..], b[1..]))))
  }

  lemma {:induction false} LexLeTotal(a: string, b: string)
    ensures LexLe(a, b) || LexLe(b, a)
  {
    if a != [] && b != [] && a[0] == b[0] {
      LexLeTotal(a[1..], b[1..]);
    }
  }

  predicate Sorted(s: seq<string>)
  {
    forall i :: 0 <= i < |s| - 1 ==> LexLe(s[i], s[i + 1])
  }

  function Insert(x: string, s: seq<string>): (r: seq<string>)
    ensures |r| == |s| + 1
    ensures multiset(r) == multiset(s) + multiset{x}
    ensures r[0] == x || (s != [] && r[0] == s[0])
  {
    if s == [] || LexLe(x, s[0]) then [x] + s
    else
      assert s == [s[0]] + s[1..];
      [s[0]] + Insert(x, s[1..])
  }

  lemma {:induction false} InsertSorted(x: string, s: seq<string>)
    requires Sorted(s)
    ensures Sorted(Insert(x, s))
  {
    if s != [] && !LexLe(x, s[0]) {
      LexLeTotal(x, s[0]);
      InsertSorted(x, s[1..]);
      var r := Insert(x, s[1..]);
      assert Insert(x, s) == [s[0]] + r;
    }
  }

  /** `sorted(strings)`. */
  function SortStrings(s: seq<string>): (r: seq<string>)
    ensures multiset(r) == multiset(s)
  {
    if s == [] then []
    else
      assert s == [s[0]] + s[1..];
      Insert(s[0], SortStrings(s[1..]))
  }

  /** The sorted list is ordered and holds exactly the given strings. */
  lemma {:induction false} SortStringsSorted(s: seq<string>)
    ensures Sorted(SortStrings(s))
    ensures multiset(SortStrings(s)) == multiset(s)
  {
    if s != [] {
      SortStringsSorted(s[1..]);
      InsertSorted(s[0], SortStrings(s[1..]));
    }
  }

  /** The names of string keys, in order (other keys are skipped). */
  function KeyNames(es: seq<Entry>): (names: seq<string>)
    ensures |names| <= |es|
    ensures (forall i :: 0 <= i < |es| ==> es[i].key.Name?) ==>
      |names| == |es| && forall i :: 0 <= i < |es| ==> names[i] == es[i].key.name
  {
    if es == [] then []
    else if es[0].key.Name? then [es[0].key.name] + KeyNames(es[1..])
    else KeyNames(es[1..])
  }

  // ---------------------------------------------------- update, replace, delete

  /** What update_frontmatter reports: no change (nothing written), or the written text and the sorted update keys. */
  datatype UpdateOutcome = Unchanged | Updated(text: string, fieldsUpdated: seq<string>)

  /** Two entry lists with the same keys in the same places have the same string key names. */
  lemma {:induction false} KeyNamesOfSameKeys(a: seq<Entry>, b: seq<Entry>)
    requires |a| == |b| && forall k :: 0 <= k < |a| ==> a[k].key == b[k].key
    ensures KeyNames(a) == KeyNames(b)
  {
    if a != [] {
      KeyNamesOfSameKeys(a[1..], b[1..]);
    }
  }

  /**
   * update_frontmatter given the note's current metadata and body: the
   * payload must be a dictionary and valid; if merging it into the current
   * metadata changes nothing the note is left alone, otherwise the merged
   * metadata, validated again, is written with the body.
   */
  function UpdateFrontmatter(payload: Value, current: seq<Entry>, content: string,
                             dumpSize: seq<Entry> -> nat, dump: (seq<Entry>, string) -> string)
    : (r: Result<UpdateOutcome, FrontmatterError>)
    ensures !payload.Map? ==> r == Err(PayloadNotADictionary)
    ensures payload.Map? && Validate(payload, dumpSize).Err? ==> r == Err(Validate(payload, dumpSize).error)
    ensures r == Ok(Unchanged) <==>
      payload.Map? && Validate(payload, dumpSize).Ok? && Merge(current, CoercedEntries(payload.entries, 0)) == current
    ensures payload.Map? && Validate(payload, dumpSize).Ok? ==>
      var merged := Merge(current, CoercedEntries(payload.entries, 0));
      && (merged != current && Validate(Map(merged), dumpSize).Ok? ==> r.Ok? && r.value.Updated?)
      && (merged != current && Validate(Map(merged), dumpSize).Err? ==> r == Err(Validate(Map(merged), dumpSize).error))
    ensures r.Ok? && r.value.Updated? ==>
      var merged := Merge(current, CoercedEntries(payload.entries, 0));
      && Validate(Map(merged), dumpSize).Ok?
      && r.value.text == Serialize(CoercedEntries(merged, 0), content, dump)
      && Sorted(r.value.fieldsUpdated)
      && multiset(r.value.fieldsUpdated) == multiset(KeyNames(payload.entries))
  {
    if !payload.Map? then Err(PayloadNotADictionary)
    else
      var updates :- Validate(payload, dumpSize);
      var merged := Merge(current, updates);
      if merged == current then Ok(Unchanged)
      else
        var sanitizedMerged :- Validate(Map(merged), dumpSize);
        SortStringsSorted(KeyNames(updates));
        KeyNamesOfSameKeys(updates, payload.entries);
        Ok(Updated(Serialize(sanitizedMerged, content, dump), SortStrings(KeyNames(updates))))
  }

  /**
   * Once an update has been merged, the same update again finds nothing to
   * change.
   */
  lemma UpdateAgainIsUnchanged(payload: Value, current: seq<Entry>, content: string,
                               dumpSize: seq<Entry> -> nat, dump: (seq<Entry>, string) -> string)
    requires payload.Map? && Validate(payload, dumpSize).Ok?
    requires DeepDistinct(Validate(payload, dumpSize).value)
    ensures UpdateFrontmatter(payload, Merge(current, Validate(payload, dumpSize).value), content, dumpSize, dump)
      == Ok(Unchanged)
  {
    MergeIdempotent(current, Validate(payload, dumpSize).value);
  }

  /** A note as `_load_note_frontmatter` hands it on: metadata, body, and whether a block was there. */
  datatype LoadedNote = LoadedNote(metadata: seq<Entry>, content: string, hasFrontmatter: bool)

  /**
   * `_parse_frontmatter` followed by `_frontmatter_present`: empty text has
   * no metadata and an empty body; any other text is split by the foreign
   * loader `loads`; a block is present only when the text opens with "---"
   * after its leading white space and the body is not the whole text.
   */
  function LoadNote(rawText: string, loads: string -> (seq<Entry>, string)): (n: LoadedNote)
    ensures rawText == [] ==> n == LoadedNote([], "", false)
    ensures rawText != [] ==> n.metadata == loads(rawText).0 && n.content == loads(rawText).1
    ensures n.hasFrontmatter <==>
      rawText != [] && StartsWith(LStrip(rawText, IsSpace), "---") && n.content != rawText
  {
    var (metadata, content) := if rawText == [] then ([], "") else loads(rawText);
    LoadedNote(metadata, content, FrontmatterPresent(rawText, content))
  }

  /**
   * replace_frontmatter given the note's text: the payload must be a valid
   * dictionary; its coerced entries are written with the body, and whether a
   * block was there before is reported.
   */
  function ReplaceFrontmatter(payload: Value, rawText: string, loads: string -> (seq<Entry>, string),
                              dumpSize: seq<Entry> -> nat, dump: (seq<Entry>, string) -> string)
    : (r: Result<(string, bool), FrontmatterError>)
    ensures !payload.Map? ==> r == Err(PayloadNotADictionary)
    ensures r.Ok? <==> payload.Map? && Validate(payload, dumpSize).Ok?
    ensures payload.Map? && Validate(payload, dumpSize).Err? ==> r == Err(Validate(payload, dumpSize).error)
    ensures r.Ok? ==> r.value.0 == Serialize(CoercedEntries(payload.entries, 0), LoadNote(rawText, loads).content, dump)
    ensures r.Ok? ==> r.value.1 == LoadNote(rawText, loads).hasFrontmatter
    ensures r.Ok? && payload.entries == [] ==> r.value.0 == LoadNote(rawText, loads).content
  {
    if !payload.Map? then Err(PayloadNotADictionary)
    else
      var replacement :- Validate(payload, dumpSize);
      var note := LoadNote(rawText, loads);
      Ok((Serialize(replacement, note.content, dump), note.hasFrontmatter))
  }

  /** What delete_frontmatter reports: no block (nothing written), or the body written back and the removed keys. */
  datatype DeleteOutcome = NoFrontmatter | Deleted(text: string, removedFields: seq<string>)

  /**
   * delete_frontmatter given the note's text: without a block nothing is
   * written; otherwise the body alone is written and the removed keys are
   * reported sorted.
   */
  function DeleteFrontmatter(rawText: string, loads: string -> (seq<Entry>, string),
                             dump: (seq<Entry>, string) -> string): (r: DeleteOutcome)
    ensures r == NoFrontmatter <==> !LoadNote(rawText, loads).hasFrontmatter
    ensures r.Deleted? ==> r.text == LoadNote(rawText, loads).content && r.text != rawText
    ensures r.Deleted? ==>
      Sorted(r.removedFields) && multiset(r.removedFields) == multiset(KeyNames(LoadNote(rawText, loads).metadata))
  {
    var note := LoadNote(rawText, loads);
    if !note.hasFrontmatter then NoFrontmatter
    else
      SortStringsSorted(KeyNames(note.metadata));
      Deleted(Serialize([], note.content, dump), SortStrings(KeyNames(note.metadata)))
  }

  /**
   * A note that does not open with "---" after its leading white space is
   * never rewritten by delete, and replace reports that it had no block.
   */
  lemma PlainNoteHasNoBlock(rawText: string, loads: string -> (seq<Entry>, string),
                            payload: Value, dumpSize: seq<Entry> -> nat,
                            dump: (seq<Entry>, string) -> string)
    requires !StartsWith(LStrip(rawText, IsSpace), "---")
    ensures DeleteFrontmatter(rawText, loads, dump) == NoFrontmatter
    ensures ReplaceFrontmatter(payload, rawText, loads, dumpSize, dump).Ok? ==>
      !ReplaceFrontmatter(payload, rawText, loads, dumpSize, dump).value.1
  {
  }
}
