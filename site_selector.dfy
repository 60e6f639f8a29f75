/** The site selector of `medicine_info.py` (`select_medication_website`):
    on a page of search results, follow a result from the most trusted
    domain, falling back to the first result. */
module SiteSelector {
  import opened Wrappers
  import opened Text

  /** Trusted domains, highest priority first. */
  const PreferredDomains: seq<string> := [
    "1mg.com", "apollopharmacy.in", "webmd.com", "mayoclinic.org", "drugs.com",
    "rxlist.com", "nih.gov", "medlineplus.gov", "pharmeasy.in", "netmeds.com"
  ]

  /** One `h3` result heading as the browser reports it: the `href` of its
      parent link ("" when it has none or reading it raised), whether clicking
      it and waiting for the network to go idle succeeds, and the page address
      after that navigation. */
  datatype SearchResult = SearchResult(href: string, clickOk: bool, landing: string)

  /** Result `r` is taken for `domain`: its link mentions the domain and the click goes through. */
  predicate Eligible(r: SearchResult, domain: string) {
    Contains(r.href, domain) && r.clickOk
  }

  /** The first result at or after `from` that is taken for `domain`. */
  function FirstFor(results: seq<SearchResult>, domain: string, from: nat): (r: Option<nat>)
    decreases |results| - from
    ensures r.Some? ==> from <= r.value < |results| && Eligible(results[r.value], domain)
    ensures r.Some? ==> forall j :: from <= j < r.value ==> !Eligible(results[j], domain)
    ensures r.None? ==> forall j :: from <= j < |results| ==> !Eligible(results[j], domain)
  {
    if from >= |results| then None
    else if Eligible(results[from], domain) then Some(from)
    else FirstFor(results, domain, from + 1)
  }

  /** The (domain, result) pair the preference scan settles on, trying domains from index `k` on. */
  function PreferredFrom(results: seq<SearchResult>, domains: seq<string>, k: nat): (r: Option<(nat, nat)>)
    decreases |domains| - k
    ensures r.Some? ==> k <= r.value.0 < |domains| && r.value.1 < |results|
    ensures r.Some? ==> Eligible(results[r.value.1], domains[r.value.0])
    ensures r.Some? ==> forall j :: 0 <= j < r.value.1 ==> !Eligible(results[j], domains[r.value.0])
    ensures r.Some? ==> forall d, j :: k <= d < r.value.0 && 0 <= j < |results| ==> !Eligible(results[j], domains[d])
    ensures r.None? ==> forall d, j :: k <= d < |domains| && 0 <= j < |results| ==> !Eligible(results[j], domains[d])
  {
    if k >= |domains| then None
    else match FirstFor(results, domains[k], 0)
      case Some(i) => Some((k, i))
      case None => PreferredFrom(results, domains, k + 1)
  }

  /** The result the selector follows given a preference list. */
  function Choice(results: seq<SearchResult>, domains: seq<string>): Option<nat> {
    if |results| == 0 then None
    else match PreferredFrom(results, domains, 0)
      case Some(p) => Some(p.1)
      case None => if results[0].clickOk then Some(0) else None
  }

  /** The inner scan of `select_medication_website`: the first result, in
      page order, whose link contains `domain` and whose click goes through. */
  method FirstClickable(results: seq<SearchResult>, domain: string) returns (found: Option<nat>)
    ensures found == FirstFor(results, domain, 0)
  {
    var i := 0;
    while i < |results|
      invariant 0 <= i <= |results|
      invariant FirstFor(results, domain, 0) == FirstFor(results, domain, i)
    {
      if Contains(results[i].href, domain) && results[i].clickOk {
        return Some(i);
      }
      i := i + 1;
    }
    return None;
  }

  /** `select_medication_website`: the index of the result it navigates to, or
      None when there are no results or no click went through. */
  method SelectMedicationWebsite(results: seq<SearchResult>) returns (chosen: Option<nat>)
    ensures chosen == Choice(results, PreferredDomains)
  {
    if |results| == 0 {
      // waiting for an `h3` times out; the handler returns None
      return None;
    }
    var k := 0;
    while k < |PreferredDomains|
      invariant 0 <= k <= |PreferredDomains|
      invariant PreferredFrom(results, PreferredDomains, 0) == PreferredFrom(results, PreferredDomains, k)
    {
      var found := FirstClickable(results, PreferredDomains[k]);
      if found.Some? {
        return found;
      }
      k := k + 1;
    }
    if results[0].clickOk {
      return Some(0);
    }
    return None;
  }

  /** What the selector promises: a chosen result was clicked successfully;
      when some result matches some trusted domain, the chosen one matches a
      domain at least as high in the list, it is the first result in page order
      for that domain, and no higher domain matches anything; when nothing
      matches, the first result is chosen if its click goes through; an empty
      result list gives None. */
  lemma ChoiceSpec(results: seq<SearchResult>, domains: seq<string>)
    ensures Choice(results, domains).Some? ==>
      Choice(results, domains).value < |results| && results[Choice(results, domains).value].clickOk
    ensures |results| == 0 ==> Choice(results, domains).None?
    ensures forall d, j :: 0 <= d < |domains| && 0 <= j < |results| && Eligible(results[j], domains[d]) ==>
      exists d' :: 0 <= d' <= d && PreferredWinner(results, domains, d', Choice(results, domains))
    ensures (forall d, j :: 0 <= d < |domains| && 0 <= j < |results| ==> !Eligible(results[j], domains[d])) ==>
      Choice(results, domains) == if |results| > 0 && results[0].clickOk then Some(0) else None
  {
    var p := PreferredFrom(results, domains, 0);
    if p.Some? {
      assert PreferredWinner(results, domains, p.value.0, Choice(results, domains));
    }
  }

  /** `chosen` is the first result in page order taken for `domains[d]`, and no
      domain before `d` is taken by any result. */
  ghost predicate PreferredWinner(results: seq<SearchResult>, domains: seq<string>, d: nat, chosen: Option<nat>) {
    && d < |domains|
    && chosen.Some? && chosen.value < |results|
    && Eligible(results[chosen.value], domains[d])
    && (forall j :: 0 <= j < chosen.value ==> !Eligible(results[j], domains[d]))
    && (forall d', j :: 0 <= d' < d && 0 <= j < |results| ==> !Eligible(results[j], domains[d']))
  }

  /** A later `1mg.com` result beats an earlier result from an unknown site. */
  lemma PreferenceBeatsPagePosition()
    ensures Choice([SearchResult("https://x.org/", true, "https://x.org/"),
                    SearchResult("https://1mg.com/y", true, "https://1mg.com/y")], PreferredDomains) == Some(1)
  {
    var results := [SearchResult("https://x.org/", true, "https://x.org/"),
                    SearchResult("https://1mg.com/y", true, "https://1mg.com/y")];
    assert OccursAt(results[1].href, PreferredDomains[0], 8);
    assert Eligible(results[1], PreferredDomains[0]);
    assert '1' !in results[0].href;
    MissingChar(results[0].href, PreferredDomains[0], 0);
  }
}
