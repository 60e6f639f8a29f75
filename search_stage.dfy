/** The search stage of `medicine_info.py` (`search_single_medicine`): type
    the query into the search box, read any spelling correction the search
    engine offers, and let the site selector pick a result page. */
module SearchStage {
  import opened Wrappers
  import opened Text
  import opened SiteSelector

  /** Appended to every medicine name to steer the search towards product pages. */
  const QuerySuffix: string := " medicine links"

  /** The query the orchestrator searches for a medicine name. */
  function SearchTerm(name: string): (q: string)
    ensures |q| == |name| + |QuerySuffix| && q[..|name|] == name
  {
    name + QuerySuffix
  }

  /** Candidate search inputs, tried in this order. */
  const SearchBoxSelectors: seq<string> := ["textarea.gLFyf", "#APjFqb", "textarea[name=\"q\"]"]

  /** A spelling-correction affordance: not on the page, or on the page with
      the term read from it (None when reading the term raised). */
  datatype Affordance = Absent | Present(extracted: Option<string>)

  /** What the search-results page shows: which search inputs are visible,
      the "Did you mean" link, the "Showing results for" notice, and the
      result headings. */
  datatype SearchPage = SearchPage(
    boxVisible: seq<bool>,
    didYouMean: Affordance,
    showingResults: Affordance,
    results: seq<SearchResult>)

  /** The corrected query and the address of the chosen result page. */
  datatype SearchOutcome = SearchOutcome(correctedName: string, url: Option<string>)

  /** The search input the query is typed into: the first visible one. */
  method ChooseSearchBox(visible: seq<bool>) returns (box: Option<nat>)
    ensures box.Some? ==> box.value < |visible| && visible[box.value]
    ensures box.Some? ==> forall j :: 0 <= j < box.value ==> !visible[j]
    ensures box.None? ==> forall j :: 0 <= j < |visible| ==> !visible[j]
  {
    box := None;
    var i := 0;
    while i < |visible|
      invariant 0 <= i <= |visible|
      invariant forall j :: 0 <= j < i ==> !visible[j]
    {
      if visible[i] {
        box := Some(i);
        break;
      }
      i := i + 1;
    }
  }

  /** The term read from an affordance, when it is present and reading it succeeded. */
  function Read(a: Affordance): Option<string> {
    if a.Present? then a.extracted else None
  }

  /** The name the search stage reports: the query, replaced by a "Did you
      mean" suggestion that could be read, itself overridden by a "Showing
      results for" correction that could be read. */
  function CorrectedName(query: string, didYouMean: Affordance, showingResults: Affordance): string {
    var afterSuggestion := if Read(didYouMean).Some? then Read(didYouMean).value else query;
    if Read(showingResults).Some? then Read(showingResults).value else afterSuggestion
  }

  /** The address the selector navigated to, when it navigated and the address is non-empty. */
  function SelectedUrl(results: seq<SearchResult>): Option<string> {
    match Choice(results, PreferredDomains)
    case Some(i) => if |results[i].landing| > 0 then Some(results[i].landing) else None
    case None => None
  }

  /** The outcome of `search_single_medicine` on a page showing `page`. */
  function Search(query: string, page: SearchPage): SearchOutcome {
    SearchOutcome(CorrectedName(query, page.didYouMean, page.showingResults), SelectedUrl(page.results))
  }

  /** `search_single_medicine` */
  method SearchSingleMedicine(query: string, page: SearchPage) returns (outcome: SearchOutcome)
    ensures outcome == Search(query, page)
  {
    // the query is typed into the first visible search input, if any
    var box := ChooseSearchBox(page.boxVisible);
    var corrected := query;
    match page.didYouMean {
      case Present(Some(suggestion)) => corrected := suggestion;
      case _ =>
    }
    match page.showingResults {
      case Present(Some(correction)) => corrected := correction;
      case _ =>
    }
    var chosen := SelectMedicationWebsite(page.results);
    var url: Option<string> := None;
    if chosen.Some? && |page.results[chosen.value].landing| > 0 {
      url := Some(page.results[chosen.value].landing);
    }
    outcome := SearchOutcome(corrected, url);
  }

  /** The precedence of corrections: a readable "Showing results for" term
      wins, else a readable "Did you mean" term, else the query itself; an
      affordance whose term could not be read counts as absent. */
  lemma CorrectionPrecedence(query: string, didYouMean: Affordance, showingResults: Affordance)
    ensures showingResults.Present? && showingResults.extracted.Some? ==>
      CorrectedName(query, didYouMean, showingResults) == showingResults.extracted.value
    ensures Read(showingResults).None? && didYouMean.Present? && didYouMean.extracted.Some? ==>
      CorrectedName(query, didYouMean, showingResults) == didYouMean.extracted.value
    ensures Read(showingResults).None? && Read(didYouMean).None? ==>
      CorrectedName(query, didYouMean, showingResults) == query
    ensures CorrectedName(query, Present(None), showingResults) == CorrectedName(query, Absent, showingResults)
    ensures CorrectedName(query, didYouMean, Present(None)) == CorrectedName(query, didYouMean, Absent)
  {
  }

  /** When the page offers no readable correction, the name handed on is the
      whole query, suffix included, not the medicine name that was searched. */
  lemma UncorrectedNameKeepsSuffix(name: string, page: SearchPage)
    requires Read(page.didYouMean).None? && Read(page.showingResults).None?
    ensures Search(SearchTerm(name), page).correctedName == name + " medicine links"
    ensures Search(SearchTerm(name), page).correctedName != name
  {
    assert |SearchTerm(name)| != |name|;
  }

  /** A reported address is the non-empty landing address of a result the
      selector chose and could click. */
  lemma SelectedUrlSpec(results: seq<SearchResult>)
    ensures SelectedUrl(results).Some? ==>
      exists i :: 0 <= i < |results| && Choice(results, PreferredDomains) == Some(i) &&
        results[i].clickOk && SelectedUrl(results).value == results[i].landing && |results[i].landing| > 0
    ensures Choice(results, PreferredDomains).None? ==> SelectedUrl(results).None?
    ensures forall i :: Choice(results, PreferredDomains) == Some(i) && i < |results| && |results[i].landing| > 0 ==>
      SelectedUrl(results) == Some(results[i].landing)
    ensures forall i :: Choice(results, PreferredDomains) == Some(i) && i < |results| && |results[i].landing| == 0 ==>
      SelectedUrl(results).None?
  {
    ChoiceSpec(results, PreferredDomains);
  }

  /** A "Did you mean: paracetamol" suggestion on a search for "paracetamo" is taken up. */
  lemma DidYouMeanExample(results: seq<SearchResult>)
    ensures Search("paracetamo", SearchPage([true, false, false], Present(Some("paracetamol")), Absent, results)).correctedName
      == "paracetamol"
  {
  }
}
