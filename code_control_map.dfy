/**
 * code_control/update_map.py: the path-based default categories of a scanned
 * element, and `merge_maps`, which folds freshly scanned elements into the
 * existing codebase map, keeping hand-written fields of known elements,
 * dropping elements no longer found, and sorting by `(file, name)`.
 */
module CodeControlMap {
  import opened Wrappers
  import opened Strings
  import opened Sorting
  import opened PyJson
  import opened MapMerge

  // ---------------------------------------------------------------------
  // get_default_categories
  // ---------------------------------------------------------------------

  /** The categories a file's path implies, matched in order against the lower-cased path. */
  function GetDefaultCategories(relPath: string): set<string>
  {
    var p := Lower(relPath);
    if Contains(p, "scripts/ui/chat.js") then {"CHAT", "UI"}
    else if Contains(p, "scripts/ui/") then {"UI"}
    else if Contains(p, "scripts/logic.js") then {"FACET", "LOGIC"}
    else if Contains(p, "scripts/productcatalog.js") then {"DATA"}
    else if Contains(p, "scripts/app.js") then {"APP"}
    else if Contains(p, "scripts/constants.js") then {"CONSTANTS"}
    else if Contains(p, "scripts/utils/") then {"UTILS"}
    else {"Uncategorized"}
  }

  /** The path names none of the known source locations. */
  predicate Unrecognised(p: string)
  {
    && !Contains(p, "scripts/ui/")
    && !Contains(p, "scripts/logic.js")
    && !Contains(p, "scripts/productcatalog.js")
    && !Contains(p, "scripts/app.js")
    && !Contains(p, "scripts/constants.js")
    && !Contains(p, "scripts/utils/")
  }

  /**
   * The chat view is tagged CHAT and UI, every other file under scripts/ui/
   * UI alone, the engine FACET and LOGIC; a path matching nothing is
   * Uncategorized; there are one or two categories and "Uncategorized" never
   * comes with another.
   */
  lemma DefaultCategoriesSpec(relPath: string)
    ensures var p := Lower(relPath); var r := GetDefaultCategories(relPath);
      && ("UI" in r <==> Contains(p, "scripts/ui/"))
      && ("CHAT" in r <==> Contains(p, "scripts/ui/chat.js"))
      && (Contains(p, "scripts/ui/") && !Contains(p, "scripts/ui/chat.js") ==> r == {"UI"})
      && (!Contains(p, "scripts/ui/") && Contains(p, "scripts/logic.js") ==> r == {"FACET", "LOGIC"})
      && (r == {"Uncategorized"} <==> Unrecognised(p))
      && ("Uncategorized" in r ==> r == {"Uncategorized"})
      && 1 <= |r| <= 2
  {
    var p := Lower(relPath);
    if Contains(p, "scripts/ui/chat.js") {
      ContainsPrefix(p, "scripts/ui/chat.js", "scripts/ui/");
    }
  }

  lemma LowerIdempotent(s: string)
    ensures Lower(Lower(s)) == Lower(s)
  {
  }

  /** The classification ignores letter case. */
  lemma DefaultCategoriesIgnoreCase(relPath: string)
    ensures GetDefaultCategories(Lower(relPath)) == GetDefaultCategories(relPath)
  {
    LowerIdempotent(relPath);
  }

  /** `list(set(default_cats + manual_categories))`: the defaults and the `@category` tags, once each. */
  function FinalCategories(relPath: string, manual: seq<string>): set<string>
  {
    GetDefaultCategories(relPath) + set c | c in manual
  }

  /** A file under scripts/ui/ keeps its UI tag whatever the manual tags say. */
  lemma FinalCategoriesKeepDefaults(relPath: string, manual: seq<string>)
    ensures GetDefaultCategories(relPath) <= FinalCategories(relPath, manual)
    ensures Contains(Lower(relPath), "scripts/ui/") ==> "UI" in FinalCategories(relPath, manual)
    ensures Unrecognised(Lower(relPath)) ==> "Uncategorized" in FinalCategories(relPath, manual)
  {
    DefaultCategoriesSpec(relPath);
  }

  // ---------------------------------------------------------------------
  // merge_maps
  // ---------------------------------------------------------------------

  const RequiredFields: seq<string> :=
    ["name", "file", "type", "signature", "description", "dependencies", "sideEffects", "categories"]

  /** An element as the scan produces it. */
  datatype ScannedElement = ScannedElement(
    name: string,
    file: string,
    kind: string,
    signature: string,
    description: string,
    categories: seq<string>)

  /** The value `merge_maps` gives a required field a merged entry lacks. */
  function DefaultFor(field: string): Json
  {
    if field == "dependencies" then JArr([])
    else if field == "sideEffects" then JBool(false)
    else if field == "categories" then StrList(["Uncategorized"])
    else JStr("")
  }

  /** The default of each of `fields`. */
  function DefaultsFor(fields: seq<string>): map<string, Json>
  {
    map f | f in fields :: DefaultFor(f)
  }

  /** The entry with every missing required field set to its default; present fields win. */
  function FillRequired(entry: Record): Record
  {
    DefaultsFor(RequiredFields) + entry
  }

  /** Filling in keeps every field present and adds exactly the missing required fields. */
  lemma FillRequiredSpec(entry: Record)
    ensures var r := FillRequired(entry);
      && (forall k :: k in r <==> k in entry || k in RequiredFields)
      && (forall k :: k in entry ==> r[k] == entry[k])
      && (forall k :: k in RequiredFields && k !in entry ==> r[k] == DefaultFor(k))
  {
  }

  /** One more field filled in: its default goes in only when the entry lacks it. */
  lemma DefaultsStep(fields: seq<string>, field: string, entry: Record)
    ensures var r := DefaultsFor(fields) + entry;
      DefaultsFor(fields + [field]) + entry == if field in r then r else r[field := DefaultFor(field)]
  {
    var r := DefaultsFor(fields) + entry;
    var next := if field in r then r else r[field := DefaultFor(field)];
    assert forall k :: k in fields + [field] <==> k in fields || k == field;
    assert (DefaultsFor(fields + [field]) + entry).Keys == next.Keys;
  }

  /** The `for field in REQUIRED_FIELDS` loop. */
  method EnsureRequiredFields(entry: Record) returns (r: Record)
    ensures r == FillRequired(entry)
  {
    r := entry;
    for i := 0 to |RequiredFields|
      invariant r == DefaultsFor(RequiredFields[..i]) + entry
    {
      var field := RequiredFields[i];
      DefaultsStep(RequiredFields[..i], field, entry);
      assert RequiredFields[..i + 1] == RequiredFields[..i] + [field];
      if field !in r {
        r := r[field := DefaultFor(field)];
      }
    }
    assert RequiredFields[..|RequiredFields|] == RequiredFields;
  }

  /** The record the scan builds before filling in defaults. */
  function ScanFields(e: ScannedElement): Record
  {
    map[
      "name" := JStr(e.name),
      "file" := JStr(e.file),
      "type" := JStr(e.kind),
      "signature" := JStr(e.signature),
      "description" := JStr(e.description),
      "categories" := StrList(e.categories)]
  }

  /**
   * The scan's record: its own six fields, then, in the scan's own loop over
   * `REQUIRED_FIELDS`, empty dependencies and false side effects.
   */
  function ScannedRecord(e: ScannedElement): Record
  {
    map[
      "name" := JStr(e.name),
      "file" := JStr(e.file),
      "type" := JStr(e.kind),
      "signature" := JStr(e.signature),
      "description" := JStr(e.description),
      "categories" := StrList(e.categories),
      "dependencies" := JArr([]),
      "sideEffects" := JBool(false)]
  }

  /** The scan's own fields. */
  lemma ScanFieldsSpec(e: ScannedElement)
    ensures var r := ScanFields(e);
      && (forall k :: k in r <==> k in RequiredFields && k != "dependencies" && k != "sideEffects")
      && r["name"] == JStr(e.name)
      && r["file"] == JStr(e.file)
      && r["type"] == JStr(e.kind)
      && r["signature"] == JStr(e.signature)
      && r["description"] == JStr(e.description)
      && r["categories"] == StrList(e.categories)
  {
  }

  /** A scanned record has exactly the required fields, each holding what the scan found. */
  lemma ScannedRecordSpec(e: ScannedElement)
    ensures var r := ScannedRecord(e);
      && (forall k :: k in r <==> k in RequiredFields)
      && r["name"] == JStr(e.name)
      && r["file"] == JStr(e.file)
      && r["type"] == JStr(e.kind)
      && r["signature"] == JStr(e.signature)
      && r["description"] == JStr(e.description)
      && r["categories"] == StrList(e.categories)
      && r["dependencies"] == JArr([])
      && r["sideEffects"] == JBool(false)
  {
  }

  /**
   * The scan fills in the missing required fields with the same defaults as
   * the merge, so its record is the merge's completion of the scanned fields.
   */
  lemma ScanFillsLikeMerge(e: ScannedElement)
    ensures ScannedRecord(e) == FillRequired(ScanFields(e))
  {
    ScanFillKeys(e);
    ScanFillValues(e);
  }

  lemma ScanFillKeys(e: ScannedElement)
    ensures FillRequired(ScanFields(e)).Keys == ScannedRecord(e).Keys
  {
    ScanFieldsSpec(e);
    ScannedRecordSpec(e);
    FillRequiredSpec(ScanFields(e));
  }

  lemma ScanFillValues(e: ScannedElement)
    ensures forall k :: k in ScannedRecord(e) ==> k in FillRequired(ScanFields(e)) && FillRequired(ScanFields(e))[k] == ScannedRecord(e)[k]
  {
    var s := ScanFields(e);
    ScanFieldsSpec(e);
    ScannedRecordSpec(e);
    FillRequiredSpec(s);
    assert DefaultFor("dependencies") == JArr([]);
    assert DefaultFor("sideEffects") == JBool(false);
  }

  /** A known element updated from the scan, before the required fields are filled in. */
  function SyncFromScan(existing: Record, e: ScannedElement): Record
  {
    var synced := existing["file" := JStr(e.file)]["type" := JStr(e.kind)]
      ["signature" := JStr(e.signature)]["categories" := StrList(e.categories)];
    if e.description != "" then synced["description" := JStr(e.description)] else synced
  }

  /** The fields `merge_maps` always takes from the scan. */
  const SyncedFields: set<string> := {"file", "type", "signature", "categories"}

  /** The merged entry for a scanned element whose name the old map knows. */
  function MergeExisting(existing: Record, e: ScannedElement): Record
  {
    FillRequired(SyncFromScan(existing, e))
  }

  lemma SyncFromScanSpec(existing: Record, e: ScannedElement)
    ensures var s := SyncFromScan(existing, e);
      && (forall k :: k in s <==> k in existing || k in SyncedFields || (k == "description" && e.description != ""))
      && s["file"] == JStr(e.file)
      && s["type"] == JStr(e.kind)
      && s["signature"] == JStr(e.signature)
      && s["categories"] == StrList(e.categories)
      && (e.description != "" ==> s["description"] == JStr(e.description))
      && (forall k :: k in existing && k !in SyncedFields && (k != "description" || e.description == "") ==>
            s[k] == existing[k])
  {
  }

  /** The merged entry has exactly the old entry's fields plus the required ones. */
  lemma MergeExistingKeys(existing: Record, e: ScannedElement)
    ensures forall k :: k in MergeExisting(existing, e) <==> k in existing || k in RequiredFields
  {
    SyncFromScanSpec(existing, e);
    FillRequiredSpec(SyncFromScan(existing, e));
  }

  /** File, type, signature and categories come from the scan. */
  lemma MergeExistingSynced(existing: Record, e: ScannedElement)
    ensures var r := MergeExisting(existing, e);
      && "file" in r && r["file"] == JStr(e.file)
      && "type" in r && r["type"] == JStr(e.kind)
      && "signature" in r && r["signature"] == JStr(e.signature)
      && "categories" in r && r["categories"] == StrList(e.categories)
  {
    var s := SyncFromScan(existing, e);
    SyncFromScanSpec(existing, e);
    FillRequiredSpec(s);
  }

  /**
   * The description comes from the scan when the scan found a non-empty one;
   * otherwise the old one is kept, or it is empty when there was none.
   */
  lemma MergeExistingDescription(existing: Record, e: ScannedElement)
    ensures var r := MergeExisting(existing, e);
      && "description" in r
      && r["description"] == (if e.description != "" then JStr(e.description)
                              else if "description" in existing then existing["description"] else JStr(""))
  {
    var s := SyncFromScan(existing, e);
    SyncFromScanSpec(existing, e);
    FillRequiredSpec(s);
    assert "description" in RequiredFields;
    if e.description == "" && "description" !in existing {
      assert "description" !in s;
      assert DefaultFor("description") == JStr("");
    }
  }

  /**
   * Every other field the old entry has is kept, and a required field it
   * lacks gets its default.
   */
  lemma MergeExistingKept(existing: Record, e: ScannedElement)
    ensures var r := MergeExisting(existing, e);
      && (forall k :: k in existing && k !in SyncedFields && k != "description" ==> k in r && r[k] == existing[k])
      && (forall k :: k !in existing && k in RequiredFields && k !in SyncedFields && k != "description" ==>
            k in r && r[k] == DefaultFor(k))
  {
    var s := SyncFromScan(existing, e);
    SyncFromScanSpec(existing, e);
    FillRequiredSpec(s);
  }

  /** The name is neither synced nor required to be filled in, so the old entry's name stays. */
  lemma MergeExistingName(existing: Record, e: ScannedElement)
    requires "name" in existing
    ensures MergeExisting(existing, e)["name"] == existing["name"]
  {
    var s := SyncFromScan(existing, e);
    assert s["name"] == existing["name"];
    FillRequiredSpec(s);
  }

  /**
   * An entry that already has every required field and agrees with the scan
   * on everything the scan syncs is left as it is by the merge.
   */
  lemma MergeExistingFixpoint(r: Record, e: ScannedElement)
    requires forall f :: f in RequiredFields ==> f in r
    requires "file" in r && r["file"] == JStr(e.file)
    requires "type" in r && r["type"] == JStr(e.kind)
    requires "signature" in r && r["signature"] == JStr(e.signature)
    requires "categories" in r && r["categories"] == StrList(e.categories)
    requires e.description != "" ==> "description" in r && r["description"] == JStr(e.description)
    ensures MergeExisting(r, e) == r
  {
    var s := SyncFromScan(r, e);
    SyncFromScanSpec(r, e);
    assert s == r;
    FillRequiredSpec(s);
  }

  /** Merging the same scan into an already merged entry changes nothing. */
  lemma MergeExistingIdempotent(existing: Record, e: ScannedElement)
    ensures MergeExisting(MergeExisting(existing, e), e) == MergeExisting(existing, e)
  {
    MergeExistingKeys(existing, e);
    MergeExistingSynced(existing, e);
    MergeExistingDescription(existing, e);
    MergeExistingFixpoint(MergeExisting(existing, e), e);
  }

  /** A freshly scanned record, merged with the same scan on the next run, stays as it is. */
  lemma ScannedRecordIsStable(e: ScannedElement)
    ensures MergeExisting(ScannedRecord(e), e) == ScannedRecord(e)
  {
    ScannedRecordSpec(e);
    MergeExistingFixpoint(ScannedRecord(e), e);
  }

  /** The key the lookup uses for a scanned element. */
  function ScannedName(e: ScannedElement): string
  {
    e.name
  }

  /**
   * The entry the loop appends for `e`: a copy of its old entry synced from
   * the scan, or the scan's own record, completed with the required fields
   * either way.
   */
  function EntryFor(prev: Option<Record>, e: ScannedElement): Record
  {
    FillRequired(match prev case Some(existing) => SyncFromScan(existing, e) case None => ScanFields(e))
  }

  /** What the merge loop appends, one entry per scanned element in scan order. */
  function MergeFrom(lookup: map<string, Record>, news: seq<ScannedElement>): (m: seq<Record>)
  {
    MergeWith(lookup, news, ScannedName, EntryFor)
  }

  /** Every entry the loop appends has all required fields and its scanned element's name and file. */
  lemma EntryForSpec(lookup: map<string, Record>, prev: Option<Record>, e: ScannedElement)
    requires LookupConsistent(lookup)
    requires prev.Some? ==> e.name in lookup && prev.value == lookup[e.name]
    ensures var r := EntryFor(prev, e);
      && (forall f :: f in RequiredFields ==> f in r)
      && r["name"] == JStr(e.name)
      && r["file"] == JStr(e.file)
  {
    match prev
    case Some(existing) =>
      MergeExistingKeys(existing, e);
      MergeExistingSynced(existing, e);
      MergeExistingName(existing, e);
    case None =>
      ScanFillsLikeMerge(e);
      ScannedRecordSpec(e);
  }

  /** Every merged entry has all required fields, and the name and file of its scanned element. */
  lemma MergeFromEntries(lookup: map<string, Record>, news: seq<ScannedElement>)
    requires LookupConsistent(lookup)
    ensures var m := MergeFrom(lookup, news);
      && forall i :: 0 <= i < |news| ==>
           && (forall f :: f in RequiredFields ==> f in m[i])
           && m[i]["name"] == JStr(news[i].name)
           && m[i]["file"] == JStr(news[i].file)
  {
    var names := Apply(news, ScannedName);
    forall i | 0 <= i < |news|
      ensures (forall f :: f in RequiredFields ==> f in EntryFor(DecisionAt(lookup, names, i), news[i]))
      ensures EntryFor(DecisionAt(lookup, names, i), news[i])["name"] == JStr(news[i].name)
      ensures EntryFor(DecisionAt(lookup, names, i), news[i])["file"] == JStr(news[i].file)
    {
      EntryForSpec(lookup, DecisionAt(lookup, names, i), news[i]);
    }
  }

  /** `merge_maps(existing_data, new_elements)`: the new document, or the exception raised. */
  function MergeMapsResult(data: Record, news: seq<ScannedElement>): Result<Record, PyError>
  {
    match ElementsOf(data)
    case Err(e) => Err(e)
    case Ok(elems) =>
      match BuildLookup(elems)
      case Err(e) => Err(e)
      case Ok(lookup) => Ok(ReplaceElements(data, SortByKey(MergeFrom(lookup, news))))
  }

  /** The merge as the script runs it: the merge loop, then an in-place sort. */
  method MergeMaps(existingData: Record, newElements: seq<ScannedElement>) returns (r: Result<Record, PyError>)
    ensures r == MergeMapsResult(existingData, newElements)
  {
    var existingElements := ElementsOf(existingData);
    if existingElements.Err? {
      return Err(existingElements.error);
    }
    var lookup := BuildLookup(existingElements.value);
    if lookup.Err? {
      return Err(lookup.error);
    }
    var mergedElements := MergeLoop(lookup.value, newElements, ScannedName, EntryFor);
    mergedElements := SortByKey(mergedElements);
    r := Ok(ReplaceElements(existingData, mergedElements));
  }

  /** The loop body for a known name: a copy of the old entry, synced from the scan, then completed. */
  method MergeEntry(existing: Record, newEl: ScannedElement) returns (mergedEntry: Record)
    ensures mergedEntry == EntryFor(Some(existing), newEl)
  {
    mergedEntry := SyncFromScan(existing, newEl);
    mergedEntry := EnsureRequiredFields(mergedEntry);
  }

  /**
   * The merge fails exactly when the old `elements` cannot be read or one of
   * them has no usable name. Otherwise only `elements` changes; it holds the
   * entries `MergeFrom` builds, one per scanned element (old entries the scan
   * no longer finds are dropped), sorted by `(file, name)`: each has every
   * required field, and their `(name, file)` pairs are the scanned elements'.
   */
  lemma MergeMapsSpec(data: Record, news: seq<ScannedElement>)
    ensures var r := MergeMapsResult(data, news);
      && (r.Ok? <==> ElementsOf(data).Ok? && BuildLookup(ElementsOf(data).value).Ok?)
      && (r.Ok? ==>
            && r.value.Keys == data.Keys + {"elements"}
            && (forall k :: k in data && k != "elements" ==> r.value[k] == data[k])
            && exists entries: seq<Record> ::
                 && r.value["elements"] == AsList(entries)
                 && |entries| == |news|
                 && Sorted(entries, KeyLe)
                 && (forall e :: e in entries ==> forall f :: f in RequiredFields ==> f in e)
                 && (forall e :: e in entries ==> "name" in e)
                 && multiset(entries) == multiset(MergeFrom(BuildLookup(ElementsOf(data).value).value, news))
                 && multiset(NameFilesOf(entries)) == multiset(ScannedNameFiles(news)))
  {
    if ElementsOf(data).Ok? && BuildLookup(ElementsOf(data).value).Ok? {
      var elems := ElementsOf(data).value;
      BuildLookupSpec(elems);
      var lookup := BuildLookup(elems).value;
      var entries := SortByKey(MergeFrom(lookup, news));
      SortedMergeSpec(lookup, news);
      SortByKeySpec(MergeFrom(lookup, news));
      assert MergeMapsResult(data, news).value["elements"] == AsList(entries);
    }
  }

  /** The sorted merge: one entry per scanned element, complete, ordered, with the scanned names and files. */
  lemma SortedMergeSpec(lookup: map<string, Record>, news: seq<ScannedElement>)
    requires LookupConsistent(lookup)
    ensures var entries := SortByKey(MergeFrom(lookup, news));
      && |entries| == |news|
      && Sorted(entries, KeyLe)
      && (forall e :: e in entries ==> forall f :: f in RequiredFields ==> f in e)
      && (forall e :: e in entries ==> "name" in e)
      && multiset(NameFilesOf(entries)) == multiset(ScannedNameFiles(news))
  {
    var merged := MergeFrom(lookup, news);
    SortByKeySpec(merged);
    SortedMergeComplete(lookup, news);
    SortedMergeNameFiles(lookup, news);
  }

  lemma SortedMergeComplete(lookup: map<string, Record>, news: seq<ScannedElement>)
    requires LookupConsistent(lookup)
    ensures forall e :: e in SortByKey(MergeFrom(lookup, news)) ==> forall f :: f in RequiredFields ==> f in e
  {
    var merged := MergeFrom(lookup, news);
    MergeFromEntries(lookup, news);
    SortByKeySpec(merged);
    forall e | e in SortByKey(merged) ensures forall f :: f in RequiredFields ==> f in e {
      assert e in multiset(merged);
    }
  }

  /** The sorted entries' `(name, file)` pairs are the scanned elements', rearranged. */
  lemma SortedMergeNameFiles(lookup: map<string, Record>, news: seq<ScannedElement>)
    requires LookupConsistent(lookup)
    ensures multiset(NameFilesOf(SortByKey(MergeFrom(lookup, news)))) == multiset(ScannedNameFiles(news))
  {
    var merged := MergeFrom(lookup, news);
    MergeFromEntries(lookup, news);
    SortByKeySpec(merged);
    assert NameFilesOf(merged) == ScannedNameFiles(news);
    ApplyPermutation(merged, SortByKey(merged), NameFileOf);
  }

  /** The scanned names and files, as JSON strings. */
  function ScannedNameFiles(news: seq<ScannedElement>): seq<(Json, Json)>
  {
    seq(|news|, i requires 0 <= i < |news| => (JStr(news[i].name), JStr(news[i].file)))
  }
}
