/** The orchestrator of `medicine_info.py` (`process_medicine_list`): run the
    search, name, content and summary stages for every medicine, count the
    successes, and reduce the records to a mapping keyed by medicine name. */
module Orchestrator {
  import opened Wrappers
  import opened Text
  import opened Json
  import opened PyDict
  import opened SearchStage
  import opened NameExtractor
  import opened ContentNormalizer
  import opened Summarizer

  /** What the browser and the model do while one medicine is processed: an
      exception escaping the search (navigation, typing, waiting), or else the
      results page; the product page's title locators; an exception from
      reading the page's HTML, or else the page; and the model call with the
      JSON decoder. */
  datatype ItemWorld = ItemWorld(
    searchFault: Option<string>,
    search: SearchPage,
    titles: TitlePage,
    contentFault: Option<string>,
    html: HtmlPage,
    backend: (string, string) -> Reply,
    parse: string -> Parse)

  /** How the stages end for one medicine: no page was found, an exception
      escaped a stage, or a record was extracted from the page at `url`. */
  datatype ItemOutcome = NoUrl | Raised(error: string) | Fetched(url: string, info: map<string, JsonValue>)

  const NoUrlText: string := "Failed to find a reliable URL for this medicine"

  /** The name handed to the summarizer: the name read from the product page
      when it is non-empty, else the search stage's corrected name. */
  function ResolvedName(corrected: string, fromPage: Option<string>): (r: string)
    ensures fromPage.Some? && |fromPage.value| > 0 ==> r == fromPage.value
    ensures !(fromPage.Some? && |fromPage.value| > 0) ==> r == corrected
  {
    if fromPage.Some? && |fromPage.value| > 0 then fromPage.value else corrected
  }

  /** The stages for the medicine `name`. */
  function Outcome(name: string, w: ItemWorld): (o: ItemOutcome)
    ensures o.Fetched? ==> "description" in o.info
  {
    if w.searchFault.Some? then Raised(w.searchFault.value)
    else
      var found := Search(SearchTerm(name), w.search);
      if found.url.None? then NoUrl
      else
        var url := found.url.value;
        var resolved := ResolvedName(found.correctedName, ExtractMedicineNameFromUrl(w.titles, url));
        if w.contentFault.Some? then Raised(w.contentFault.value)
        else Fetched(url, MedicineInfo(ConvertHtmlToMarkdown(w.html, url), resolved, w.backend, w.parse))
  }

  /** The record appended when no record could be extracted. */
  function Placeholder(name: string, description: string): map<string, JsonValue> {
    map[
      "medicine_name" := JString(name),
      "description" := JString(description),
      "key_benefits" := JList([]),
      "directions" := JString(""),
      "safety_info" := JString(""),
      "relevant_info" := JString(""),
      "url" := JString("")
    ]
  }

  /** The success test on a description, or the `AttributeError` it raises
      when the description is truthy but not a string. */
  function SuccessTest(description: JsonValue): Result<bool> {
    if !Truthy(description) then Ok(false)
    else if !description.JString? then Err("'" + TypeName(description) + "' object has no attribute 'startswith'")
    else Ok(!StartsWith(description.s, "Error"))
  }

  /** The record appended for an outcome, and whether it counts as a success. */
  function ItemRecord(name: string, outcome: ItemOutcome): (r: (map<string, JsonValue>, bool))
    requires outcome.Fetched? ==> "description" in outcome.info
  {
    match outcome
    case NoUrl => (Placeholder(name, NoUrlText), false)
    case Raised(e) => (Placeholder(name, "Error: " + e), false)
    case Fetched(url, info) =>
      var record := info["url" := JString(url)];
      match SuccessTest(record["description"])
      case Err(e) => (Placeholder(name, "Error: " + e), false)
      case Ok(ok) => (record, ok)
  }

  /** The record appended for the medicine `name`, and whether it counts as a success. */
  function Item(name: string, w: ItemWorld): (r: (map<string, JsonValue>, bool)) {
    ItemRecord(name, Outcome(name, w))
  }

  /** The stages for one medicine, up to the record the summarizer returns. */
  method LookUp(name: string, w: ItemWorld) returns (outcome: ItemOutcome)
    ensures outcome == Outcome(name, w)
  {
    if w.searchFault.Some? {
      return Raised(w.searchFault.value);
    }
    var found := SearchSingleMedicine(SearchTerm(name), w.search);
    if found.url.None? {
      return NoUrl;
    }
    var url := found.url.value;
    var corrected := found.correctedName;
    var fromPage := ExtractMedicineNameFromUrl(w.titles, url);
    if fromPage.Some? && |fromPage.value| > 0 {
      corrected := fromPage.value;
    }
    if w.contentFault.Some? {
      return Raised(w.contentFault.value);
    }
    var markdown := ConvertHtmlToMarkdown(w.html, url);
    var info := ExtractMedicineInfo(markdown, corrected, w.backend, w.parse);
    outcome := Fetched(url, info);
  }

  /** The body of the loop for one medicine. */
  method ProcessItem(name: string, w: ItemWorld) returns (record: map<string, JsonValue>, ok: bool)
    ensures (record, ok) == Item(name, w)
  {
    var outcome := LookUp(name, w);
    match outcome {
      case NoUrl => return Placeholder(name, NoUrlText), false;
      case Raised(e) => return Placeholder(name, "Error: " + e), false;
      case Fetched(url, info) =>
        info := info["url" := JString(url)];
        var test := SuccessTest(info["description"]);
        if test.Err? {
          return Placeholder(name, "Error: " + test.error), false;
        }
        record, ok := info, test.value;
    }
  }

  /** The number of successes among the first `n` medicines. */
  function Successes(names: seq<string>, worlds: seq<ItemWorld>, n: nat): (c: nat)
    requires n <= |names| == |worlds|
    ensures c <= n
  {
    if n == 0 then 0 else Successes(names, worlds, n - 1) + (if Item(names[n - 1], worlds[n - 1]).1 then 1 else 0)
  }

  /** One more medicine counted. */
  lemma SuccessesNext(names: seq<string>, worlds: seq<ItemWorld>, i: nat, ok: bool)
    requires i < |names| == |worlds| && ok == Item(names[i], worlds[i]).1
    ensures Successes(names, worlds, i + 1) == Successes(names, worlds, i) + (if ok then 1 else 0)
  {
  }

  /** One more record appended in input order. */
  lemma RecordsNext(names: seq<string>, worlds: seq<ItemWorld>, results: seq<map<string, JsonValue>>, record: map<string, JsonValue>)
    requires |results| < |names| == |worlds|
    requires forall j :: 0 <= j < |results| ==> results[j] == Item(names[j], worlds[j]).0
    requires record == Item(names[|results|], worlds[|results|]).0
    ensures forall j :: 0 <= j <= |results| ==> (results + [record])[j] == Item(names[j], worlds[j]).0
  {
  }

  /** The loop of `process_medicine_list`: one record per medicine, in input order. */
  method RunBatch(names: seq<string>, worlds: seq<ItemWorld>) returns (results: seq<map<string, JsonValue>>, successes: nat)
    requires |names| == |worlds|
    ensures |results| == |names|
    ensures forall i :: 0 <= i < |names| ==> results[i] == Item(names[i], worlds[i]).0
    ensures successes == Successes(names, worlds, |names|) && successes <= |names|
  {
    results := [];
    successes := 0;
    var i := 0;
    while i < |names|
      invariant 0 <= i <= |names|
      invariant |results| == i
      invariant forall j :: 0 <= j < i ==> results[j] == Item(names[j], worlds[j]).0
      invariant successes == Successes(names, worlds, i)
    {
      var record, ok := ProcessItem(names[i], worlds[i]);
      SuccessesNext(names, worlds, i, ok);
      RecordsNext(names, worlds, results, record);
      results := results + [record];
      if ok {
        successes := successes + 1;
      }
      i := i + 1;
    }
  }

  /** Every record has the six required keys and a "url". A medicine without
      a page gets the "no URL" placeholder; an escaping exception gets an
      "Error: " placeholder; a description that is truthy but not a string
      gets the placeholder of the `AttributeError` the success test raises;
      otherwise the extracted record with its "url" set is kept, and it is a
      success exactly when its description is a non-empty string not
      starting with "Error". */
  lemma ItemSpec(name: string, w: ItemWorld)
    ensures var (record, ok) := Item(name, w);
      && Complete(record) && "url" in record
      && (ok ==> Outcome(name, w).Fetched? && record["url"] == JString(Outcome(name, w).url)
                 && record["description"].JString? && |record["description"].s| > 0
                 && !StartsWith(record["description"].s, "Error"))
      && (Outcome(name, w).NoUrl? ==> record == Placeholder(name, NoUrlText) && !ok)
      && (Outcome(name, w).Raised? ==> record == Placeholder(name, "Error: " + Outcome(name, w).error) && !ok)
      && (Outcome(name, w).Fetched? ==> FetchedRecord(name, Outcome(name, w).url, Outcome(name, w).info, record, ok))
  {
    OutcomeComplete(name, w);
    ItemRecordSpec(name, Outcome(name, w));
  }

  /** A record extracted from a page has the six required keys. */
  lemma OutcomeComplete(name: string, w: ItemWorld)
    ensures Outcome(name, w).Fetched? ==> Complete(Outcome(name, w).info)
  {
  }

  /** What `process_medicine_list` keeps for a record extracted from the page at `url`. */
  predicate FetchedRecord(name: string, url: string, info: map<string, JsonValue>, record: map<string, JsonValue>, ok: bool)
    requires "description" in info
  {
    var d := info["description"];
    if Truthy(d) && !d.JString? then
      record == Placeholder(name, "Error: '" + TypeName(d) + "' object has no attribute 'startswith'") && !ok
    else
      record == info["url" := JString(url)] && (ok <==> d.JString? && |d.s| > 0 && !StartsWith(d.s, "Error"))
  }

  /** The record for each way the stages can end. */
  lemma ItemRecordSpec(name: string, outcome: ItemOutcome)
    requires outcome.Fetched? ==> "description" in outcome.info
    ensures var (record, ok) := ItemRecord(name, outcome);
      && "url" in record
      && (!outcome.Fetched? || Complete(outcome.info) ==> Complete(record))
      && (ok ==> outcome.Fetched? && record["url"] == JString(outcome.url)
                 && record["description"].JString? && |record["description"].s| > 0
                 && !StartsWith(record["description"].s, "Error"))
      && (outcome.NoUrl? ==> record == Placeholder(name, NoUrlText) && !ok)
      && (outcome.Raised? ==> record == Placeholder(name, "Error: " + outcome.error) && !ok)
      && (outcome.Fetched? ==> FetchedRecord(name, outcome.url, outcome.info, record, ok))
  {
    PlaceholderComplete(name, NoUrlText);
    if outcome.Raised? {
      PlaceholderComplete(name, "Error: " + outcome.error);
    }
    if outcome.Fetched? {
      var d := outcome.info["description"];
      if Truthy(d) && !d.JString? {
        var e := "'" + TypeName(d) + "' object has no attribute 'startswith'";
        assert "Error: " + e == "Error: '" + TypeName(d) + "' object has no attribute 'startswith'";
        PlaceholderComplete(name, "Error: " + e);
      }
    }
  }

  /** A placeholder has the six required keys. */
  lemma PlaceholderComplete(name: string, description: string)
    ensures Complete(Placeholder(name, description)) && "url" in Placeholder(name, description)
  {
    var p := Placeholder(name, description);
    assert RequiredKeys[0] in p && RequiredKeys[1] in p && RequiredKeys[2] in p;
    assert RequiredKeys[3] in p && RequiredKeys[4] in p && RequiredKeys[5] in p;
  }

  /** A placeholder carries the name, the description and an empty url. */
  lemma PlaceholderFields(name: string, description: string)
    ensures var p := Placeholder(name, description);
      && p["medicine_name"] == JString(name) && p["description"] == JString(description)
      && p["url"] == JString("")
  {
  }

  /** A search that finds no page yields the placeholder carrying the input
      name, whatever the search engine suggested. */
  lemma NoPageKeepsInputName(name: string, w: ItemWorld)
    requires w.searchFault.None? && SelectedUrl(w.search.results).None?
    ensures Item(name, w).0["medicine_name"] == JString(name)
    ensures Item(name, w).0["url"] == JString("")
  {
    assert Search(SearchTerm(name), w.search).url.None?;
    assert Outcome(name, w) == NoUrl;
    PlaceholderFields(name, NoUrlText);
  }

  /** A record has every key the reduction reads. */
  predicate Complete(record: map<string, JsonValue>) {
    forall k :: k in RequiredKeys ==> k in record
  }

  /** The reduced entry for one medicine. */
  datatype Entry = Entry(
    description: JsonValue,
    keyBenefits: string,
    directions: JsonValue,
    safetyInfo: JsonValue,
    relevantInfo: JsonValue,
    url: JsonValue)

  /** The index of the first list item that is not a string, if any. */
  function FirstNonString(items: seq<JsonValue>, from: nat): (r: Option<nat>)
    decreases |items| - from
    ensures r.Some? ==> from <= r.value < |items| && !items[r.value].JString?
    ensures r.Some? ==> forall j :: from <= j < r.value ==> items[j].JString?
    ensures r.None? ==> forall j :: from <= j < |items| ==> items[j].JString?
  {
    if from >= |items| then None
    else if !items[from].JString? then Some(from)
    else FirstNonString(items, from + 1)
  }

  /** The strings of a list that holds only strings. */
  function Texts(items: seq<JsonValue>): (r: seq<string>)
    requires forall j :: 0 <= j < |items| ==> items[j].JString?
    ensures |r| == |items| && forall j :: 0 <= j < |items| ==> r[j] == items[j].s
  {
    seq(|items|, j requires 0 <= j < |items| => items[j].s)
  }

  /** `", ".join(benefits)` for a list, else `str(benefits)`; `dictText` stands
      for `str` of a dict. A list item that is not a string raises `TypeError`. */
  function BenefitsText(benefits: JsonValue, dictText: map<string, JsonValue> -> string): Result<string> {
    match benefits
    case JList(items) =>
      (match FirstNonString(items, 0)
       case Some(i) => Err("sequence item " + NatToString(i) + ": expected str instance, " + TypeName(items[i]) + " found")
       case None => Ok(Join(Texts(items), ", ")))
    case JString(s) => Ok(s)
    case JNull => Ok("None")
    case JBool(b) => Ok(if b then "True" else "False")
    case JNum(n) => Ok(IntToString(n))
    case JObject(m) => Ok(dictText(m))
  }

  /** Benefits given as a list are joined with ", " exactly when every item
      is a string; otherwise the error names the first item that is not. */
  lemma BenefitsListSpec(items: seq<JsonValue>, dictText: map<string, JsonValue> -> string)
    ensures BenefitsText(JList(items), dictText).Ok? <==> forall j :: 0 <= j < |items| ==> items[j].JString?
    ensures BenefitsText(JList(items), dictText).Ok? ==>
      BenefitsText(JList(items), dictText).value == Join(Texts(items), ", ")
    ensures BenefitsText(JList(items), dictText).Err? ==>
      exists i :: 0 <= i < |items| && !items[i].JString? && (forall j :: 0 <= j < i ==> items[j].JString?) &&
        BenefitsText(JList(items), dictText).error ==
          "sequence item " + NatToString(i) + ": expected str instance, " + TypeName(items[i]) + " found"
  {
    var first := FirstNonString(items, 0);
    if first.Some? {
      assert !items[first.value].JString?;
    }
  }

  /** The key and entry one record contributes, or the `TypeError` that
      formatting it raises. */
  function EntryOf(record: map<string, JsonValue>, dictText: map<string, JsonValue> -> string): (r: Result<(PyKey, Entry)>)
    requires Complete(record)
    ensures r.Ok? <==> BenefitsText(record["key_benefits"], dictText).Ok? && HashKey(record["medicine_name"]).Some?
    ensures r.Ok? ==> r.value.0 == HashKey(record["medicine_name"]).value
    ensures r.Ok? ==> r.value.1.keyBenefits == BenefitsText(record["key_benefits"], dictText).value
    ensures BenefitsText(record["key_benefits"], dictText).Err? ==> r.error == BenefitsText(record["key_benefits"], dictText).error
  {
    match BenefitsText(record["key_benefits"], dictText)
    case Err(e) => Err(e)
    case Ok(benefits) =>
      match HashKey(record["medicine_name"])
      case None => Err("unhashable type: '" + TypeName(record["medicine_name"]) + "'")
      case Some(k) =>
        Ok((k, Entry(record["description"], benefits, record["directions"], record["safety_info"],
                     record["relevant_info"], GetOr(record, "url", JString("")))))
  }

  /** What every record contributes. */
  function Formatted(results: seq<map<string, JsonValue>>, dictText: map<string, JsonValue> -> string)
    : (fs: seq<Result<(PyKey, Entry)>>)
    requires forall i :: 0 <= i < |results| ==> Complete(results[i])
    ensures |fs| == |results| && forall i :: 0 <= i < |results| ==> fs[i] == EntryOf(results[i], dictText)
  {
    seq(|results|, i requires 0 <= i < |results| => EntryOf(results[i], dictText))
  }

  /** The mapping after the first `n` contributions: each entry is stored under
      its key, a later one overwriting an earlier one with an equal key; the
      first formatting error stops the reduction. */
  function Fold<V>(fs: seq<Result<(PyKey, V)>>, n: nat): Result<Dict<PyKey, V>>
    requires n <= |fs|
  {
    if n == 0 then Ok(Dict([]))
    else
      match Fold(fs, n - 1)
      case Err(e) => Err(e)
      case Ok(d) =>
        match fs[n - 1]
        case Err(e) => Err(e)
        case Ok(ke) => Ok(Put(d, ke.0, ke.1))
  }

  /** The reduction loop of `process_medicine_list`. */
  method FormatResults(results: seq<map<string, JsonValue>>, dictText: map<string, JsonValue> -> string)
    returns (data: Result<Dict<PyKey, Entry>>)
    requires forall i :: 0 <= i < |results| ==> Complete(results[i])
    ensures data == Fold(Formatted(results, dictText), |results|)
  {
    ghost var fs := Formatted(results, dictText);
    var d: Dict<PyKey, Entry> := Dict([]);
    var i := 0;
    while i < |results|
      invariant 0 <= i <= |results|
      invariant Fold(fs, i) == Ok(d)
    {
      var entry := EntryOf(results[i], dictText);
      assert entry == fs[i];
      if entry.Err? {
        FoldStaysFailed(fs, i + 1, |results|);
        return Err(entry.error);
      }
      d := Put(d, entry.value.0, entry.value.1);
      i := i + 1;
    }
    data := Ok(d);
  }

  /** Once the reduction fails it stays failed with the same error. */
  lemma {:induction false} FoldStaysFailed<V>(fs: seq<Result<(PyKey, V)>>, m: nat, n: nat)
    requires m <= n <= |fs| && Fold(fs, m).Err?
    decreases n
    ensures Fold(fs, n) == Fold(fs, m)
  {
    if n > m {
      FoldStaysFailed(fs, m, n - 1);
    }
  }

  /** The key of contribution `i`, when it has one. */
  function KeyAt<V>(fs: seq<Result<(PyKey, V)>>, i: nat): Option<PyKey>
    requires i < |fs|
  {
    if fs[i].Ok? then Some(fs[i].value.0) else None
  }

  /** A successful reduction had no formatting error and produced a mapping
      with distinct keys and at most one entry per record. */
  lemma {:induction false} FoldShape<V>(fs: seq<Result<(PyKey, V)>>, n: nat)
    requires n <= |fs| && Fold(fs, n).Ok?
    ensures Valid(Fold(fs, n).value)
    ensures |Fold(fs, n).value.entries| <= n
    ensures forall i :: 0 <= i < n ==> fs[i].Ok?
  {
    if n > 0 {
      FoldStep(fs, n);
      FoldShape(fs, n - 1);
      forall i | 0 <= i < n
        ensures fs[i].Ok?
      {
      }
    }
  }

  /** A successful reduction of `n` contributions is the successful reduction
      of the first `n - 1` with the last one stored. */
  lemma FoldStep<V>(fs: seq<Result<(PyKey, V)>>, n: nat)
    requires 0 < n <= |fs| && Fold(fs, n).Ok?
    ensures Fold(fs, n - 1).Ok? && fs[n - 1].Ok?
    ensures Fold(fs, n).value == Put(Fold(fs, n - 1).value, fs[n - 1].value.0, fs[n - 1].value.1)
  {
  }

  /** The keys of a successful reduction are exactly the records' keys. */
  lemma {:induction false} FoldKeys<V>(fs: seq<Result<(PyKey, V)>>, n: nat)
    requires n <= |fs| && Fold(fs, n).Ok?
    ensures forall k :: k in Keys(Fold(fs, n).value) <==> exists i :: 0 <= i < n && KeyAt(fs, i) == Some(k)
  {
    if n > 0 {
      FoldStep(fs, n);
      FoldKeys(fs, n - 1);
      KeysStep(fs, n, Fold(fs, n - 1).value, Fold(fs, n).value);
    }
  }

  /** Storing contribution `n - 1` adds its key to the keys of the first
      `n - 1` contributions. */
  lemma KeysStep<V>(fs: seq<Result<(PyKey, V)>>, n: nat, before: Dict<PyKey, V>, after: Dict<PyKey, V>)
    requires 0 < n <= |fs| && fs[n - 1].Ok?
    requires after == Put(before, fs[n - 1].value.0, fs[n - 1].value.1)
    requires forall k :: k in Keys(before) <==> exists i :: 0 <= i < n - 1 && KeyAt(fs, i) == Some(k)
    ensures forall k :: k in Keys(after) <==> exists i :: 0 <= i < n && KeyAt(fs, i) == Some(k)
  {
    var key := fs[n - 1].value.0;
    PutKeys(before, key, fs[n - 1].value.1);
    assert KeyAt(fs, n - 1) == Some(key);
    forall k | k in Keys(after)
      ensures exists i :: 0 <= i < n && KeyAt(fs, i) == Some(k)
    {
      if k != key {
        assert k in Keys(before);
      }
    }
  }

  /** Last wins: each record's key maps to its entry unless a later record
      has an equal key. */
  lemma {:induction false} FoldLastWins<V>(fs: seq<Result<(PyKey, V)>>, n: nat)
    requires n <= |fs| && Fold(fs, n).Ok?
    ensures forall i :: 0 <= i < n && (forall j :: i < j < n ==> KeyAt(fs, j) != KeyAt(fs, i)) ==>
      fs[i].Ok? && Get(Fold(fs, n).value, fs[i].value.0) == Some(fs[i].value.1)
  {
    if n > 0 {
      FoldShape(fs, n);
      FoldLastWins(fs, n - 1);
      var ke := fs[n - 1].value;
      assert Fold(fs, n).value == Put(Fold(fs, n - 1).value, ke.0, ke.1);
      PutOthers(Fold(fs, n - 1).value, ke.0, ke.1);
      forall i | 0 <= i < n - 1 && (forall j :: i < j < n ==> KeyAt(fs, j) != KeyAt(fs, i))
        ensures Get(Fold(fs, n).value, fs[i].value.0) == Some(fs[i].value.1)
      {
        assert KeyAt(fs, n - 1) != KeyAt(fs, i);
      }
    }
  }

  /** When every record carries a different key, no entry is lost. */
  lemma {:induction false} DistinctKeysKeepAll<V>(fs: seq<Result<(PyKey, V)>>, n: nat)
    requires n <= |fs| && Fold(fs, n).Ok?
    requires forall i, j :: 0 <= i < j < n ==> KeyAt(fs, i) != KeyAt(fs, j)
    ensures |Fold(fs, n).value.entries| == n
  {
    if n > 0 {
      FoldStep(fs, n);
      FoldKeys(fs, n - 1);
      DistinctKeysKeepAll(fs, n - 1);
      PutKeys(Fold(fs, n - 1).value, fs[n - 1].value.0, fs[n - 1].value.1);
      assert KeyAt(fs, n - 1) == Some(fs[n - 1].value.0);
    }
  }

  /** The reduction succeeds exactly when every contribution does; when it
      fails, it fails with the error of the first contribution that did. */
  lemma {:induction false} FoldErrors<V>(fs: seq<Result<(PyKey, V)>>, n: nat)
    requires n <= |fs|
    ensures Fold(fs, n).Ok? <==> forall i :: 0 <= i < n ==> fs[i].Ok?
    ensures Fold(fs, n).Err? ==>
      exists i :: 0 <= i < n && fs[i].Err? && (forall j :: 0 <= j < i ==> fs[j].Ok?) && Fold(fs, n).error == fs[i].error
  {
    if n > 0 {
      FoldErrors(fs, n - 1);
      if Fold(fs, n - 1).Ok? && fs[n - 1].Err? {
        assert forall j :: 0 <= j < n - 1 ==> fs[j].Ok?;
      }
    }
  }

  /** What `process_medicine_list` ends with: the name-keyed mapping and the
      success count, or the exception that escaped it. */
  datatype BatchResult = Completed(data: Dict<PyKey, Entry>, successes: nat) | Crashed(error: string)

  /** The records of the whole batch. */
  function Records(names: seq<string>, worlds: seq<ItemWorld>): (rs: seq<map<string, JsonValue>>)
    requires |names| == |worlds|
    ensures |rs| == |names| && forall i :: 0 <= i < |rs| ==> Complete(rs[i]) && rs[i] == Item(names[i], worlds[i]).0
  {
    seq(|names|, i requires 0 <= i < |names| => Item(names[i], worlds[i]).0)
  }

  /** The outcome of `process_medicine_list`: the reduction, then the success
      rate report, which divides by the number of medicines. */
  function Batch(names: seq<string>, worlds: seq<ItemWorld>, dictText: map<string, JsonValue> -> string): BatchResult
    requires |names| == |worlds|
  {
    match Fold(Formatted(Records(names, worlds), dictText), |names|)
    case Err(e) => Crashed(e)
    case Ok(d) => if |names| == 0 then Crashed("division by zero") else Completed(d, Successes(names, worlds, |names|))
  }

  /** `process_medicine_list`, with one world per medicine. */
  method ProcessMedicineList(names: seq<string>, worlds: seq<ItemWorld>, dictText: map<string, JsonValue> -> string)
    returns (result: BatchResult)
    requires |names| == |worlds|
    ensures result == Batch(names, worlds, dictText)
  {
    var results, successes := RunBatch(names, worlds);
    assert results == Records(names, worlds);
    var data := FormatResults(results, dictText);
    if data.Err? {
      return Crashed(data.error);
    }
    if |names| == 0 {
      return Crashed("division by zero");
    }
    result := Completed(data.value, successes);
  }

  /** An empty list is processed without any lookup and then crashes on the
      success-rate division. */
  lemma EmptyListCrashes(dictText: map<string, JsonValue> -> string)
    ensures Batch([], [], dictText) == Crashed("division by zero")
  {
  }

  /** A completed batch holds at most one entry per medicine and at most as
      many successes; each input's record is stored under its name unless a
      later input resolved to an equal name. */
  lemma BatchSpec(names: seq<string>, worlds: seq<ItemWorld>, dictText: map<string, JsonValue> -> string)
    requires |names| == |worlds|
    ensures Batch(names, worlds, dictText).Completed? ==>
      var fs := Formatted(Records(names, worlds), dictText);
      var b := Batch(names, worlds, dictText);
      && |names| > 0
      && |b.data.entries| <= |names|
      && b.successes <= |names|
      && (forall i :: 0 <= i < |names| && (forall j :: i < j < |names| ==> KeyAt(fs, j) != KeyAt(fs, i)) ==>
            fs[i].Ok? && Get(b.data, fs[i].value.0) == Some(fs[i].value.1))
  {
    var fs := Formatted(Records(names, worlds), dictText);
    if Batch(names, worlds, dictText).Completed? {
      FoldShape(fs, |names|);
      FoldLastWins(fs, |names|);
    }
  }

  /** The batch completes exactly when the list is not empty and every
      record can be formatted; otherwise it stops on the first record that
      cannot, with that record's error. */
  lemma BatchCompletes(names: seq<string>, worlds: seq<ItemWorld>, dictText: map<string, JsonValue> -> string)
    requires |names| == |worlds|
    ensures var fs := Formatted(Records(names, worlds), dictText);
      Batch(names, worlds, dictText).Completed? <==> |names| > 0 && forall i :: 0 <= i < |names| ==> fs[i].Ok?
    ensures var fs := Formatted(Records(names, worlds), dictText);
      Batch(names, worlds, dictText).Crashed? && |names| > 0 ==>
        exists i :: 0 <= i < |names| && fs[i].Err? && (forall j :: 0 <= j < i ==> fs[j].Ok?) &&
          Batch(names, worlds, dictText).error == fs[i].error
  {
    FoldErrors(Formatted(Records(names, worlds), dictText), |names|);
  }

  /** Two records resolving to the same name leave one entry: the later one. */
  lemma SameNameCollapses(name: PyKey, earlier: Entry, later: Entry)
    ensures Fold([Ok((name, earlier)), Ok((name, later))], 2) == Ok(Dict([(name, later)]))
  {
    var fs := [Ok((name, earlier)), Ok((name, later))];
    var d1 := Dict([(name, earlier)]);
    assert Fold(fs, 1) == Ok(d1) by {
      var empty: Dict<PyKey, Entry> := Dict([]);
      assert Fold(fs, 0) == Ok(empty);
      assert FindFrom(empty, name, 0) == None;
      assert empty.entries + [(name, earlier)] == [(name, earlier)];
    }
    assert FindFrom(d1, name, 0) == Some(0);
    assert d1.entries[0 := (name, later)] == [(name, later)];
  }
}
