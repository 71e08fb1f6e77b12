/**
 * The steps both `merge_maps` functions share (code_control/update_map.py and
 * update_map.py): reading the existing `elements` list, the lookup dict keyed
 * by element name, the final sort by `(file, name)` and the replacement of
 * `elements` in the document.
 */
module MapMerge {
  import opened Wrappers
  import opened Strings
  import opened Sorting
  import opened PyJson

  // ---------------------------------------------------------------------
  // existing_data.get("elements", [])
  // ---------------------------------------------------------------------

  /**
   * The items a `for` loop over `existing_data.get("elements", [])` visits,
   * or the error that indexing them with `'name'` raises: a dict yields its
   * (string) keys and a string its characters, neither of which can be
   * indexed by `'name'`; `None`, booleans and numbers are not iterable.
   */
  function ElementsOf(data: Record): (r: Result<seq<Json>, PyError>)
    ensures "elements" !in data ==> r == Ok([])
    ensures "elements" in data && data["elements"].JArr? ==> r == Ok(data["elements"].items)
    ensures r.Ok? ==> "elements" !in data || data["elements"].JArr? || data["elements"] in {JObj(map[]), JStr("")}
  {
    if "elements" !in data then Ok([])
    else
      match data["elements"]
      case JArr(items) => Ok(items)
      case JObj(fields) => if fields == map[] then Ok([]) else Err(TypeError)
      case JStr(s) => if s == "" then Ok([]) else Err(TypeError)
      case _ => Err(TypeError)
  }

  // ---------------------------------------------------------------------
  // existing_lookup = {el['name']: el for el in existing_elements}
  // ---------------------------------------------------------------------

  /**
   * `el['name']` used as a dict key: a record without `name` raises KeyError,
   * a non-record or a list/dict name raises TypeError. A hashable name that
   * is not a string is a valid key that no scanned (string) name can equal,
   * so it is reported as `None`.
   */
  function NameKey(el: Json): (r: Result<Option<string>, PyError>)
    ensures r.Ok? <==> el.JObj? && "name" in el.fields && !el.fields["name"].JArr? && !el.fields["name"].JObj?
    ensures !el.JObj? ==> r == Err(TypeError)
    ensures el.JObj? && "name" !in el.fields ==> r == Err(KeyError("name"))
    ensures r.Ok? && r.value.Some? ==> NamedAs(el, r.value.value)
    ensures forall k :: NamedAs(el, k) ==> r == Ok(Some(k))
  {
    match el
    case JObj(fields) =>
      if "name" !in fields then Err(KeyError("name"))
      else
        (match fields["name"]
         case JStr(s) => Ok(Some(s))
         case JArr(_) => Err(TypeError)
         case JObj(_) => Err(TypeError)
         case _ => Ok(None))
    case _ => Err(TypeError)
  }

  /** The comprehension, element by element into `acc`; a later element replaces an earlier one. */
  function BuildLookupFrom(acc: map<string, Record>, elems: seq<Json>): Result<map<string, Record>, PyError>
    decreases |elems|
  {
    if elems == [] then Ok(acc)
    else
      match NameKey(elems[0])
      case Err(e) => Err(e)
      case Ok(key) =>
        var acc' := if key.Some? then acc[key.value := elems[0].fields] else acc;
        BuildLookupFrom(acc', elems[1..])
  }

  function BuildLookup(elems: seq<Json>): Result<map<string, Record>, PyError>
  {
    BuildLookupFrom(map[], elems)
  }

  /** `el` is a record whose `name` is the string `k`. */
  predicate NamedAs(el: Json, k: string)
  {
    el.JObj? && "name" in el.fields && el.fields["name"] == JStr(k)
  }

  /** Every entry of the lookup is filed under its own name. */
  predicate LookupConsistent(lookup: map<string, Record>)
  {
    forall k :: k in lookup ==> "name" in lookup[k] && lookup[k]["name"] == JStr(k)
  }

  lemma {:induction false} BuildLookupFromOk(acc: map<string, Record>, elems: seq<Json>)
    ensures BuildLookupFrom(acc, elems).Ok? <==> forall i :: 0 <= i < |elems| ==> NameKey(elems[i]).Ok?
    decreases |elems|
  {
    if elems != [] && NameKey(elems[0]).Ok? {
      var key := NameKey(elems[0]).value;
      var acc' := if key.Some? then acc[key.value := elems[0].fields] else acc;
      var rest := elems[1..];
      BuildLookupFromOk(acc', rest);
      if forall i :: 0 <= i < |rest| ==> NameKey(rest[i]).Ok? {
        forall i | 0 <= i < |elems| ensures NameKey(elems[i]).Ok? {
          if i > 0 { assert elems[i] == rest[i - 1]; }
        }
      }
    }
  }

  lemma {:induction false} BuildLookupFromKeys(acc: map<string, Record>, elems: seq<Json>)
    requires LookupConsistent(acc)
    requires BuildLookupFrom(acc, elems).Ok?
    ensures LookupConsistent(BuildLookupFrom(acc, elems).value)
    ensures forall k :: k in BuildLookupFrom(acc, elems).value <==>
      k in acc || exists i :: 0 <= i < |elems| && NamedAs(elems[i], k)
    decreases |elems|
  {
    if elems != [] {
      var key := NameKey(elems[0]).value;
      var acc' := if key.Some? then acc[key.value := elems[0].fields] else acc;
      var rest := elems[1..];
      BuildLookupFromKeys(acc', rest);
      var r := BuildLookupFrom(acc', rest).value;
      forall k ensures k in r <==> k in acc || exists i :: 0 <= i < |elems| && NamedAs(elems[i], k) {
        if exists i :: 0 <= i < |elems| && NamedAs(elems[i], k) {
          var i :| 0 <= i < |elems| && NamedAs(elems[i], k);
          if i > 0 { assert NamedAs(rest[i - 1], k); }
        }
        if exists i :: 0 <= i < |rest| && NamedAs(rest[i], k) {
          var i :| 0 <= i < |rest| && NamedAs(rest[i], k);
          assert NamedAs(elems[i + 1], k);
        }
      }
    }
  }

  /** `elems[j]` is the last element named `k`. */
  predicate LastNamed(elems: seq<Json>, k: string, j: int)
  {
    0 <= j < |elems| && NamedAs(elems[j], k) && forall j' :: j < j' < |elems| ==> !NamedAs(elems[j'], k)
  }

  lemma {:induction false} BuildLookupFromLast(acc: map<string, Record>, elems: seq<Json>, k: string, j: int)
    requires BuildLookupFrom(acc, elems).Ok?
    requires LastNamed(elems, k, j)
    ensures k in BuildLookupFrom(acc, elems).value
    ensures BuildLookupFrom(acc, elems).value[k] == elems[j].fields
    decreases |elems|
  {
    var key := NameKey(elems[0]).value;
    var acc' := if key.Some? then acc[key.value := elems[0].fields] else acc;
    var rest := elems[1..];
    if j > 0 {
      assert LastNamed(rest, k, j - 1) by {
        forall j' | j - 1 < j' < |rest| ensures !NamedAs(rest[j'], k) {
          assert rest[j'] == elems[j' + 1];
        }
      }
      BuildLookupFromLast(acc', rest, k, j - 1);
    } else {
      BuildLookupFromUntouched(acc', rest, k);
    }
  }

  lemma {:induction false} BuildLookupFromUntouched(acc: map<string, Record>, elems: seq<Json>, k: string)
    requires BuildLookupFrom(acc, elems).Ok?
    requires k in acc
    requires forall i :: 0 <= i < |elems| ==> !NamedAs(elems[i], k)
    ensures k in BuildLookupFrom(acc, elems).value
    ensures BuildLookupFrom(acc, elems).value[k] == acc[k]
    decreases |elems|
  {
    if elems != [] {
      var key := NameKey(elems[0]).value;
      var acc' := if key.Some? then acc[key.value := elems[0].fields] else acc;
      var rest := elems[1..];
      assert !NamedAs(elems[0], k);
      forall i | 0 <= i < |rest| ensures !NamedAs(rest[i], k) {
        assert rest[i] == elems[i + 1];
      }
      BuildLookupFromUntouched(acc', rest, k);
    }
  }

  /**
   * The lookup exists exactly when every element is a record with a hashable
   * name; it then holds the string-named elements, each under its own name,
   * and for a name given more than once the last element with that name.
   */
  lemma BuildLookupSpec(elems: seq<Json>)
    ensures var r := BuildLookup(elems);
      && (r.Ok? <==> forall i :: 0 <= i < |elems| ==> NameKey(elems[i]).Ok?)
      && (r.Ok? ==>
            && LookupConsistent(r.value)
            && (forall k :: k in r.value <==> exists i :: 0 <= i < |elems| && NamedAs(elems[i], k))
            && (forall k, j :: LastNamed(elems, k, j) ==> k in r.value && r.value[k] == elems[j].fields))
  {
    BuildLookupFromOk(map[], elems);
    if BuildLookup(elems).Ok? {
      BuildLookupFromKeys(map[], elems);
      forall k, j | LastNamed(elems, k, j) ensures k in BuildLookup(elems).value && BuildLookup(elems).value[k] == elems[j].fields {
        BuildLookupFromLast(map[], elems, k, j);
      }
    }
  }

  // ---------------------------------------------------------------------
  // merged_elements.sort(key=lambda x: (x['file'], x['name']))
  // ---------------------------------------------------------------------

  /** A string field of a merged entry (every entry has string `file` and `name`). */
  function StrField(e: Record, key: string): string
  {
    if key in e && e[key].JStr? then e[key].s else ""
  }

  /** Python's `<=` on the key tuples `(file, name)`: by file, then by name. */
  function KeyLe(a: Record, b: Record): bool
  {
    || LexLt(StrField(a, "file"), StrField(b, "file"))
    || (StrField(a, "file") == StrField(b, "file") && LexLe(StrField(a, "name"), StrField(b, "name")))
  }

  lemma KeyLeIsTotalPreorder()
    ensures TotalPreorder(KeyLe)
  {
    forall a, b ensures KeyLe(a, b) || KeyLe(b, a) {
      LexLeTotal(StrField(a, "file"), StrField(b, "file"));
      LexLeTotal(StrField(a, "name"), StrField(b, "name"));
    }
    forall a, b, c | KeyLe(a, b) && KeyLe(b, c) ensures KeyLe(a, c) {
      var fa, fb, fc := StrField(a, "file"), StrField(b, "file"), StrField(c, "file");
      if fa != fb || fb != fc {
        LexLeReflexive(fa);
        LexLeReflexive(fb);
        LexLeTransitive(fa, fb, fc);
        if fa == fc {
          LexLeAntisymmetric(fa, fb);
        }
      } else {
        LexLeTransitive(StrField(a, "name"), StrField(b, "name"), StrField(c, "name"));
      }
    }
  }

  /** The in-place sort, as a stable sort on the key. */
  function SortByKey(entries: seq<Record>): seq<Record>
  {
    InsertionSort(entries, KeyLe)
  }

  /** The sorted list is ordered by `(file, name)` and holds the same entries. */
  lemma SortByKeySpec(entries: seq<Record>)
    ensures Sorted(SortByKey(entries), KeyLe)
    ensures multiset(SortByKey(entries)) == multiset(entries)
    ensures |SortByKey(entries)| == |entries|
  {
    KeyLeIsTotalPreorder();
    InsertionSortCorrect(entries, KeyLe);
    assert |SortByKey(entries)| == |multiset(SortByKey(entries))|;
  }

  /** Entries with the same `(file, name)` key keep their scan order, as Python's sort does. */
  lemma SortByKeyIsStable(entries: seq<Record>, y: Record)
    ensures EqualsOf(SortByKey(entries), y, KeyLe) == EqualsOf(entries, y, KeyLe)
  {
    KeyLeIsTotalPreorder();
    InsertionSortIsStable(entries, y, KeyLe);
  }

  // ---------------------------------------------------------------------
  // for new_el in new_elements: ... del existing_lookup[name]
  // ---------------------------------------------------------------------

  /** The old entry the scanned name `name` is merged with, if the lookup still holds it. */
  function Decision(lookup: map<string, Record>, name: string): Option<Record>
  {
    if name in lookup then Some(lookup[name]) else None
  }

  /** The lookup after the scanned name `name`: the name is deleted once merged. */
  function After(lookup: map<string, Record>, name: string): map<string, Record>
  {
    if name in lookup then lookup - {name} else lookup
  }

  /** No scanned name before position `i` equals `names[i]`. */
  predicate FirstWithName(names: seq<string>, i: int)
    requires 0 <= i < |names|
  {
    forall j :: 0 <= j < i ==> names[j] != names[i]
  }

  /**
   * The old entry scanned position `i` is merged with, stated without the
   * loop: the first scanned element with a name the old map knows is merged
   * with that name's entry; every other element, including a later one with
   * the same name, is taken as scanned.
   */
  function DecisionAt(lookup: map<string, Record>, names: seq<string>, i: int): Option<Record>
    requires 0 <= i < |names|
  {
    if names[i] in lookup && FirstWithName(names, i) then Some(lookup[names[i]]) else None
  }

  /** `current` is `lookup` with the first `i` scanned names deleted. */
  ghost predicate Remaining(lookup: map<string, Record>, names: seq<string>, i: int, current: map<string, Record>)
    requires 0 <= i <= |names|
  {
    && (forall k :: k in current <==> k in lookup && forall j :: 0 <= j < i ==> names[j] != k)
    && (forall k :: k in current ==> current[k] == lookup[k])
  }

  /** One turn of the loop decides as `DecisionAt` says and deletes one more name. */
  lemma RemainingStep(lookup: map<string, Record>, names: seq<string>, i: int, current: map<string, Record>)
    requires 0 <= i < |names|
    requires Remaining(lookup, names, i, current)
    ensures Decision(current, names[i]) == DecisionAt(lookup, names, i)
    ensures Remaining(lookup, names, i + 1, After(current, names[i]))
  {
  }

  /**
   * What the merge loop appends, one entry per scanned element in scan
   * order, given how a script names a scanned element and builds the entry
   * from the old entry it is merged with (or from none).
   */
  function MergeWith<E>(lookup: map<string, Record>, news: seq<E>, nameOf: E -> string,
                        entryFor: (Option<Record>, E) -> Record): (m: seq<Record>)
    ensures |m| == |news|
    ensures forall i :: 0 <= i < |news| ==> m[i] == entryFor(DecisionAt(lookup, Apply(news, nameOf), i), news[i])
  {
    var names := Apply(news, nameOf);
    seq(|news|, i requires 0 <= i < |news| => entryFor(DecisionAt(lookup, names, i), news[i]))
  }

  /**
   * The `for new_el in new_elements` loop both scripts run: a name still in
   * the lookup is merged with its old entry and deleted from the lookup; any
   * other element gets an entry of its own.
   */
  method MergeLoop<E>(lookup: map<string, Record>, newElements: seq<E>, nameOf: E -> string,
                      entryFor: (Option<Record>, E) -> Record) returns (mergedElements: seq<Record>)
    ensures mergedElements == MergeWith(lookup, newElements, nameOf, entryFor)
  {
    ghost var names := Apply(newElements, nameOf);
    var existingLookup := lookup;
    mergedElements := [];
    for i := 0 to |newElements|
      invariant Remaining(lookup, names, i, existingLookup)
      invariant |mergedElements| == i
      invariant forall j :: 0 <= j < i ==> mergedElements[j] == entryFor(DecisionAt(lookup, names, j), newElements[j])
    {
      var newEl := newElements[i];
      var name := nameOf(newEl);
      RemainingStep(lookup, names, i, existingLookup);
      if name in existingLookup {
        mergedElements := mergedElements + [entryFor(Some(existingLookup[name]), newEl)];
        existingLookup := existingLookup - {name};
      } else {
        mergedElements := mergedElements + [entryFor(None, newEl)];
      }
    }
  }

  // ---------------------------------------------------------------------
  // existing_data['elements'] = merged_elements
  // ---------------------------------------------------------------------

  /** The entries as a JSON list of records. */
  function AsList(entries: seq<Record>): Json
  {
    JArr(seq(|entries|, i requires 0 <= i < |entries| => JObj(entries[i])))
  }

  /** The document with `elements` replaced and every other top-level key untouched. */
  function ReplaceElements(data: Record, entries: seq<Record>): (r: Record)
    ensures r.Keys == data.Keys + {"elements"}
    ensures r["elements"] == AsList(entries)
    ensures forall k :: k in data && k != "elements" ==> r[k] == data[k]
  {
    data["elements" := AsList(entries)]
  }

  /** An entry's `name` field (`null` when it has none). */
  function NameOf(e: Record): Json
  {
    if "name" in e then e["name"] else JNull
  }

  /** The `(name, file)` pair of an entry, `None` standing for a missing field. */
  function NameFileOf(e: Record): (Json, Json)
  {
    (NameOf(e), if "file" in e then e["file"] else JNull)
  }

  /** The `(name, file)` pairs of entries, in order. */
  function NameFilesOf(entries: seq<Record>): seq<(Json, Json)>
  {
    Apply(entries, NameFileOf)
  }
}
