/**
 * update_map.py at the repository root: the older `merge_maps`, which folds
 * the regex scan's exported constants, functions and classes into the
 * codebase map. A known element keeps its hand-written fields and its
 * signature unless that is missing or empty; a new element gets empty
 * hand-written fields; elements no longer found are dropped; the result is
 * sorted by `(file, name)`.
 */
module RootMap {
  import opened Wrappers
  import opened Sorting
  import opened PyJson
  import opened MapMerge

  /** An exported element as the regex scan reports it. */
  datatype ScannedElement = ScannedElement(name: string, file: string, kind: string, signature: string)

  /** The key the lookup uses for a scanned element. */
  function ScannedName(e: ScannedElement): string
  {
    e.name
  }

  /** The dict the scan builds for an element. */
  function ScanFields(e: ScannedElement): Record
  {
    map["name" := JStr(e.name), "file" := JStr(e.file), "type" := JStr(e.kind), "signature" := JStr(e.signature)]
  }

  /** The fields `new_el.update(...)` adds to an element the old map does not know. */
  const AddedFields: set<string> := {"description", "dependencies", "sideEffects", "category"}

  /** A new element: the scan's dict with empty hand-written fields and the placeholder category. */
  function NewEntry(e: ScannedElement): Record
  {
    ScanFields(e)["description" := JStr("")]["dependencies" := JArr([])]["sideEffects" := JBool(false)]
      ["category" := JStr("Uncategorized")]
  }

  /**
   * A known element: a copy of its old entry moved to the scanned file and
   * kind; the scanned signature goes in only where the old one is missing
   * or falsy.
   */
  function UpdateExisting(existing: Record, e: ScannedElement): Record
  {
    var moved := existing["file" := JStr(e.file)]["type" := JStr(e.kind)];
    if "signature" !in moved || !Truthy(moved["signature"]) then moved["signature" := JStr(e.signature)] else moved
  }

  /** The entry the loop appends for `e`, given what the lookup still holds under its name. */
  function EntryFor(prev: Option<Record>, e: ScannedElement): Record
  {
    match prev
    case Some(existing) => UpdateExisting(existing, e)
    case None => NewEntry(e)
  }

  /** A new entry holds the scan's four fields and the four added ones, and nothing else. */
  lemma NewEntrySpec(e: ScannedElement)
    ensures var r := NewEntry(e);
      && (forall k :: k in r <==> k in {"name", "file", "type", "signature"} || k in AddedFields)
      && r["name"] == JStr(e.name)
      && r["file"] == JStr(e.file)
      && r["type"] == JStr(e.kind)
      && r["signature"] == JStr(e.signature)
      && r["description"] == JStr("")
      && r["dependencies"] == JArr([])
      && r["sideEffects"] == JBool(false)
      && r["category"] == JStr("Uncategorized")
  {
  }

  /**
   * An updated entry has the old entry's fields plus file, type and
   * signature; file and type come from the scan; a truthy old signature is
   * kept and any other is replaced by the scanned one; every other field is
   * kept.
   */
  lemma UpdateExistingSpec(existing: Record, e: ScannedElement)
    ensures var r := UpdateExisting(existing, e);
      && (forall k :: k in r <==> k in existing || k in {"file", "type", "signature"})
      && r["file"] == JStr(e.file)
      && r["type"] == JStr(e.kind)
      && r["signature"] == (if "signature" in existing && Truthy(existing["signature"]) then existing["signature"]
                            else JStr(e.signature))
      && (forall k :: k in existing && k !in {"file", "type", "signature"} ==> r[k] == existing[k])
  {
  }

  /** Updating an entry a second time with the same scan changes nothing. */
  lemma UpdateExistingIdempotent(existing: Record, e: ScannedElement)
    ensures UpdateExisting(UpdateExisting(existing, e), e) == UpdateExisting(existing, e)
  {
    var r := UpdateExisting(existing, e);
    UpdateExistingSpec(existing, e);
    UpdateExistingSpec(r, e);
    assert UpdateExisting(r, e).Keys == r.Keys;
  }

  /** A new entry, met again on the next run with the same scan, stays as it is. */
  lemma NewEntryIsStable(e: ScannedElement)
    ensures UpdateExisting(NewEntry(e), e) == NewEntry(e)
  {
    var r := NewEntry(e);
    NewEntrySpec(e);
    UpdateExistingSpec(r, e);
    assert UpdateExisting(r, e).Keys == r.Keys;
  }

  /** What the merge loop appends, one entry per scanned element in scan order. */
  function MergeFrom(lookup: map<string, Record>, news: seq<ScannedElement>): seq<Record>
  {
    MergeWith(lookup, news, ScannedName, EntryFor)
  }

  /** Every entry the loop appends carries its scanned element's name and file. */
  lemma EntryForSpec(lookup: map<string, Record>, prev: Option<Record>, e: ScannedElement)
    requires LookupConsistent(lookup)
    requires prev.Some? ==> e.name in lookup && prev.value == lookup[e.name]
    ensures var r := EntryFor(prev, e);
      && "name" in r && r["name"] == JStr(e.name)
      && "file" in r && r["file"] == JStr(e.file)
  {
    match prev
    case Some(existing) =>
      UpdateExistingSpec(existing, e);
    case None =>
      NewEntrySpec(e);
  }

  /** Every merged entry carries the name and file of its scanned element. */
  lemma MergeFromEntries(lookup: map<string, Record>, news: seq<ScannedElement>)
    requires LookupConsistent(lookup)
    ensures var m := MergeFrom(lookup, news);
      && forall i :: 0 <= i < |news| ==>
           && "name" in m[i] && m[i]["name"] == JStr(news[i].name)
           && "file" in m[i] && m[i]["file"] == JStr(news[i].file)
  {
    var names := Apply(news, ScannedName);
    forall i | 0 <= i < |news|
      ensures "name" in EntryFor(DecisionAt(lookup, names, i), news[i])
      ensures EntryFor(DecisionAt(lookup, names, i), news[i])["name"] == JStr(news[i].name)
      ensures "file" in EntryFor(DecisionAt(lookup, names, i), news[i])
      ensures EntryFor(DecisionAt(lookup, names, i), news[i])["file"] == JStr(news[i].file)
    {
      EntryForSpec(lookup, DecisionAt(lookup, names, i), news[i]);
    }
  }

  /** `merge_maps(existing_data, new_elements)`: the new document, or the exception raised. */
  function MergeMapsResult(data: Record, news: seq<ScannedElement>): Result<Record, PyError>
  {
    match ElementsOf(data)
    case Err(e) => Err(e)
    case Ok(elems) =>
      match BuildLookup(elems)
      case Err(e) => Err(e)
      case Ok(lookup) => Ok(ReplaceElements(data, SortByKey(MergeFrom(lookup, news))))
  }

  /** The merge as the script runs it: the merge loop, then an in-place sort. */
  method MergeMaps(existingData: Record, newElements: seq<ScannedElement>) returns (r: Result<Record, PyError>)
    ensures r == MergeMapsResult(existingData, newElements)
  {
    var existingElements := ElementsOf(existingData);
    if existingElements.Err? {
      return Err(existingElements.error);
    }
    var lookup := BuildLookup(existingElements.value);
    if lookup.Err? {
      return Err(lookup.error);
    }
    var mergedElements := MergeLoop(lookup.value, newElements, ScannedName, EntryFor);
    mergedElements := SortByKey(mergedElements);
    r := Ok(ReplaceElements(existingData, mergedElements));
  }

  /**
   * The merge fails exactly when the old `elements` cannot be read or one of
   * them has no usable name. Otherwise only `elements` changes; it holds the
   * entries `MergeFrom` builds, one per scanned element, sorted by
   * `(file, name)`, and their `(name, file)` pairs are the scanned elements'.
   */
  lemma MergeMapsSpec(data: Record, news: seq<ScannedElement>)
    ensures var r := MergeMapsResult(data, news);
      && (r.Ok? <==> ElementsOf(data).Ok? && BuildLookup(ElementsOf(data).value).Ok?)
      && (r.Ok? ==>
            && r.value.Keys == data.Keys + {"elements"}
            && (forall k :: k in data && k != "elements" ==> r.value[k] == data[k])
            && exists entries: seq<Record> ::
                 && r.value["elements"] == AsList(entries)
                 && |entries| == |news|
                 && Sorted(entries, KeyLe)
                 && (forall e :: e in entries ==> "name" in e && "file" in e)
                 && multiset(entries) == multiset(MergeFrom(BuildLookup(ElementsOf(data).value).value, news))
                 && multiset(NameFilesOf(entries)) == multiset(ScannedNameFiles(news)))
  {
    if ElementsOf(data).Ok? && BuildLookup(ElementsOf(data).value).Ok? {
      var elems := ElementsOf(data).value;
      BuildLookupSpec(elems);
      var lookup := BuildLookup(elems).value;
      var entries := SortByKey(MergeFrom(lookup, news));
      SortedMergeSpec(lookup, news);
      SortByKeySpec(MergeFrom(lookup, news));
      assert MergeMapsResult(data, news).value["elements"] == AsList(entries);
    }
  }

  /** The sorted merge: one entry per scanned element, ordered, with the scanned names and files. */
  lemma SortedMergeSpec(lookup: map<string, Record>, news: seq<ScannedElement>)
    requires LookupConsistent(lookup)
    ensures var entries := SortByKey(MergeFrom(lookup, news));
      && |entries| == |news|
      && Sorted(entries, KeyLe)
      && (forall e :: e in entries ==> "name" in e && "file" in e)
      && multiset(NameFilesOf(entries)) == multiset(ScannedNameFiles(news))
  {
    var merged := MergeFrom(lookup, news);
    MergeFromEntries(lookup, news);
    SortByKeySpec(merged);
    forall e | e in SortByKey(merged) ensures "name" in e && "file" in e {
      assert e in multiset(merged);
    }
    assert NameFilesOf(merged) == ScannedNameFiles(news);
    ApplyPermutation(merged, SortByKey(merged), NameFileOf);
  }

  /** The scanned names and files, as JSON strings. */
  function ScannedNameFiles(news: seq<ScannedElement>): seq<(Json, Json)>
  {
    seq(|news|, i requires 0 <= i < |news| => (JStr(news[i].name), JStr(news[i].file)))
  }
}
