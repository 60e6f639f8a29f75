/** The name extractor of `medicine_info.py` (`extract_medicine_name_from_url`):
    recover the product name from a pharmacy page, by the site's own title
    element, a generic heading, or by reading the address itself. */
module NameExtractor {
  import opened Wrappers
  import opened Text

  /** What the browser reports for a title locator: nothing visible, a visible
      element with its inner text, or an exception. */
  datatype Probe = Hidden | Shown(text: string) | Raises

  /** The two title locators the extractor consults: the site's own title
      selectors (only used on a known pharmacy) and the first `h1`. */
  datatype TitlePage = TitlePage(site: Probe, heading: Probe)

  /** Pharmacies with their own title selectors, in the order the dispatch tests them. */
  const TitleDomains: seq<string> := ["apollopharmacy.in", "1mg.com", "netmeds.com", "pharmeasy.in"]

  /** The pharmacy whose title selectors apply to `url`: the first listed domain it mentions. */
  function SiteOf(url: string): (r: Option<nat>)
    ensures r.Some? ==> r.value < |TitleDomains| && Contains(url, TitleDomains[r.value])
    ensures r.Some? ==> forall k :: 0 <= k < r.value ==> !Contains(url, TitleDomains[k])
    ensures r.None? ==> forall k :: 0 <= k < |TitleDomains| ==> !Contains(url, TitleDomains[k])
  {
    if Contains(url, TitleDomains[0]) then Some(0)
    else if Contains(url, TitleDomains[1]) then Some(1)
    else if Contains(url, TitleDomains[2]) then Some(2)
    else if Contains(url, TitleDomains[3]) then Some(3)
    else None
  }

  const MedicineMarker: string := "/medicine/"

  /** Length of the run of characters other than '?' starting at `i`. */
  function NonQueryRun(s: string, i: nat): (n: nat)
    requires i <= |s|
    decreases |s| - i
    ensures i + n <= |s|
    ensures forall j :: i <= j < i + n ==> s[j] != '?'
    ensures i + n == |s| || s[i + n] == '?'
  {
    if i < |s| && s[i] != '?' then 1 + NonQueryRun(s, i + 1) else 0
  }

  /** A "/medicine/" at `q` that the pattern `/medicine/([^?]+)` can match:
      at least one character other than '?' follows it. */
  predicate SlugStart(url: string, q: nat) {
    OccursAt(url, MedicineMarker, q) && q + |MedicineMarker| < |url| && url[q + |MedicineMarker|] != '?'
  }

  /** Where `re.search` finds "/medicine/([^?]+)" scanning from `p`: the
      leftmost `SlugStart` at or after `p`. */
  function FirstSlugStart(url: string, p: nat): (r: Option<nat>)
    decreases |url| - p
    ensures r.Some? ==> p <= r.value && SlugStart(url, r.value)
    ensures r.Some? ==> forall j :: p <= j < r.value ==> !SlugStart(url, j)
    ensures r.None? <==> forall j :: p <= j ==> !SlugStart(url, j)
  {
    if p + |MedicineMarker| >= |url| then None
    else if url[p..p + |MedicineMarker|] == MedicineMarker && url[p + |MedicineMarker|] != '?' then
      assert SlugStart(url, p);
      Some(p)
    else
      assert !SlugStart(url, p);
      FirstSlugStart(url, p + 1)
  }

  /** Group 1 of `re.search(r'/medicine/([^?]+)', url)` with the search starting at `p`:
      the leftmost "/medicine/" followed by at least one character other than
      '?', and the longest run of such characters after it, which ends at the
      next '?' or at the end of the address. */
  function MedicineSlugFrom(url: string, p: nat): (r: Option<string>)
    ensures r.Some? ==> |r.value| > 0 && '?' !in r.value
  {
    match FirstSlugStart(url, p)
    case None => None
    case Some(q) =>
      var start := q + |MedicineMarker|;
      var slug := url[start..start + NonQueryRun(url, start)];
      assert forall c :: c in slug ==> c != '?' by {
        forall c | c in slug ensures c != '?' {
          var j :| 0 <= j < |slug| && slug[j] == c;
          assert url[start + j] == c;
        }
      }
      Some(slug)
  }

  /** The slug starts after the leftmost `SlugStart` and runs up to the next
      '?' or the end of the address; there is none exactly when no
      "/medicine/" is followed by a character other than '?'. */
  lemma MedicineSlugFromSpec(url: string, p: nat)
    ensures var r := MedicineSlugFrom(url, p);
      r.Some? ==>
        exists q :: p <= q && SlugStart(url, q) && (forall j :: p <= j < q ==> !SlugStart(url, j)) &&
                    var start := q + |MedicineMarker|;
                    start + |r.value| <= |url| && url[start..start + |r.value|] == r.value &&
                    (start + |r.value| == |url| || url[start + |r.value|] == '?')
    ensures MedicineSlugFrom(url, p).None? <==> forall j :: p <= j ==> !SlugStart(url, j)
  {
    var f := FirstSlugStart(url, p);
    if f.Some? {
      var q := f.value;
      var start := q + |MedicineMarker|;
      var n := NonQueryRun(url, start);
      assert MedicineSlugFrom(url, p) == Some(url[start..start + n]);
      SlugAfter(url, p, q, start, url[start..start + n]);
      assert SlugStart(url, q);
    } else {
      assert MedicineSlugFrom(url, p) == None;
    }
  }

  /** The slug read after the leftmost `SlugStart` at `q` witnesses it. */
  lemma SlugAfter(url: string, p: nat, q: nat, start: nat, slug: string)
    requires p <= q && SlugStart(url, q) && (forall j :: p <= j < q ==> !SlugStart(url, j))
    requires start == q + |MedicineMarker| && start + |slug| <= |url| && url[start..start + |slug|] == slug
    requires start + |slug| == |url| || url[start + |slug|] == '?'
    ensures exists q :: p <= q && SlugStart(url, q) && (forall j :: p <= j < q ==> !SlugStart(url, j)) &&
                        var start := q + |MedicineMarker|;
                        start + |slug| <= |url| && url[start..start + |slug|] == slug &&
                        (start + |slug| == |url| || url[start + |slug|] == '?')
  {
  }

  /** Length of the match of `\d+mg|\d+\s*s$` at position `i` of `s` (0 when none).
      Both alternatives can only match with the longest digit run, and the
      second only with the longest whitespace run after it: a shorter run is
      followed by a digit or a space, which neither "mg" nor "s" starts with.
      `$` matches at the end and just before a final newline. */
  function DosageMatch(s: string, i: nat): (n: nat)
    requires i <= |s|
    ensures i + n <= |s|
  {
    var d := DigitRun(s, i);
    if d == 0 then 0
    else if i + d + 2 <= |s| && s[i + d..i + d + 2] == "mg" then d + 2
    else
      var j := i + d + SpaceRun(s, i + d);
      if j < |s| && s[j] == 's' && (j + 1 == |s| || (j + 2 == |s| && s[j + 1] == '\n')) then j + 1 - i
      else 0
  }

  /** `re.sub(r'\d+mg|\d+\s*s$', '', s)` scanning from position `i`. */
  function RemoveDosageFrom(s: string, i: nat): (r: string)
    requires i <= |s|
    decreases |s| - i
    ensures forall c :: c in r ==> c in s
  {
    if i == |s| then []
    else
      var n := DosageMatch(s, i);
      if n > 0 then RemoveDosageFrom(s, i + n)
      else [s[i]] + RemoveDosageFrom(s, i + 1)
  }

  /** A character other than a digit starts no dosage and is copied. */
  lemma DosageCharKept(s: string, i: nat)
    requires i < |s| && !IsDigit(s[i])
    ensures RemoveDosageFrom(s, i) == [s[i]] + RemoveDosageFrom(s, i + 1)
  {
    assert DigitRun(s, i) == 0;
  }

  /** A digit-free stretch `s[i..k]` is copied by the dosage removal: only
      text starting with a digit is ever deleted. */
  lemma {:induction false} DigitFreeDosage(s: string, i: nat, k: nat)
    requires i <= k <= |s| && forall j :: i <= j < k ==> !IsDigit(s[j])
    decreases k - i
    ensures RemoveDosageFrom(s, i) == s[i..k] + RemoveDosageFrom(s, k)
  {
    if i < k {
      DosageCharKept(s, i);
      DigitFreeDosage(s, i + 1, k);
      Regroup(s, i, k, RemoveDosageFrom(s, i), RemoveDosageFrom(s, i + 1), RemoveDosageFrom(s, k));
    }
  }

  /** A dosage "<digits>mg" is deleted wherever it stands. */
  lemma DosageDropped(s: string, i: nat, d: nat)
    requires i + d + 2 <= |s| && d > 0 && (forall j :: i <= j < i + d ==> IsDigit(s[j]))
    requires s[i + d..i + d + 2] == "mg"
    ensures RemoveDosageFrom(s, i) == RemoveDosageFrom(s, i + d + 2)
  {
    assert s[i + d] == s[i + d..i + d + 2][0] == 'm';
    DigitRunTo(s, i, i + d);
  }

  /** A trailing pack size is deleted: `d` digits at `k`, a whitespace run
      of length `w` and a final 's', which may only be followed by one
      newline (where `$` also matches). The newline stays. */
  lemma {:induction false} PackSizeDropped(s: string, k: nat, d: nat, w: nat)
    requires 0 < d && k + d + w < |s| && (forall j :: k <= j < k + d ==> IsDigit(s[j]))
    requires forall j :: k + d <= j < k + d + w ==> IsSpace(s[j])
    requires s[k + d + w] == 's'
    requires k + d + w + 1 == |s| || (k + d + w + 2 == |s| && s[k + d + w + 1] == '\n')
    ensures RemoveDosageFrom(s, k) == s[k + d + w + 1..]
  {
    var e := k + d;
    var j := e + w;
    var n := j + 1;
    DigitRunTo(s, k, e);
    SpaceRunTo(s, e, j);
    PackSizeAt(s, k, d, w);
    MatchSkipped(s, k, n);
    if n < |s| {
      DosageCharKept(s, n);
      assert s[n..] == [s[n]];
    }
  }

  /** A dosage match at `k` is deleted whole. */
  lemma MatchSkipped(s: string, k: nat, n: nat)
    requires k < |s| && 0 < DosageMatch(s, k) && n == k + DosageMatch(s, k)
    ensures RemoveDosageFrom(s, k) == RemoveDosageFrom(s, n)
  {
  }

  /** The pack-size match at `k` runs to the final 's'. */
  lemma {:induction false} PackSizeAt(s: string, k: nat, d: nat, w: nat)
    requires 0 < d && k + d + w < |s| && DigitRun(s, k) == d && SpaceRun(s, k + d) == w
    requires s[k + d + w] == 's'
    requires k + d + w + 1 == |s| || (k + d + w + 2 == |s| && s[k + d + w + 1] == '\n')
    ensures DosageMatch(s, k) == d + w + 1
  {
    var e := k + d;
    var j := e + w;
    assert !(e + 2 <= |s| && s[e..e + 2] == "mg") by {
      if e + 2 <= |s| {
        assert s[e..e + 2][0] == s[e];
        if w > 0 {
          assert IsSpace(s[e]);
        }
      }
    }
    PackSizeMatch(s, k, e, j);
  }

  /** Digits from `k` to `e`, whitespace from `e` to `j`, no "mg" at `e` and
      a final "s" at `j`: the match at `k` ends after the "s". */
  lemma PackSizeMatch(s: string, k: nat, e: nat, j: nat)
    requires k < e <= j < |s| && DigitRun(s, k) == e - k && SpaceRun(s, e) == j - e
    requires !(e + 2 <= |s| && s[e..e + 2] == "mg")
    requires s[j] == 's' && (j + 1 == |s| || (j + 2 == |s| && s[j + 1] == '\n'))
    ensures DosageMatch(s, k) == j + 1 - k
  {
  }

  /** A number that is neither followed by "mg" nor a trailing pack size is
      kept: `d` digits at `i`, then a whitespace run of length `w`. */
  predicate PlainNumberAt(s: string, i: nat, d: nat, w: nat) {
    var j := i + d + w;
    && 0 < d && j <= |s|
    && (forall m :: i <= m < i + d ==> IsDigit(s[m]))
    && (i + d == |s| || !IsDigit(s[i + d]))
    && (forall m :: i + d <= m < j ==> IsSpace(s[m]))
    && (j == |s| || !IsSpace(s[j]))
    && !(i + d + 2 <= |s| && s[i + d..i + d + 2] == "mg")
    && !(j < |s| && s[j] == 's' && (j + 1 == |s| || (j + 2 == |s| && s[j + 1] == '\n')))
  }

  /** The digits of a number that is not a dosage are copied. */
  lemma {:induction false} DigitsKept(s: string, i: nat, d: nat, w: nat)
    requires PlainNumberAt(s, i, d, w)
    ensures RemoveDosageFrom(s, i) == s[i..i + d] + RemoveDosageFrom(s, i + d)
  {
    forall p | i <= p < i + d
      ensures DosageMatch(s, p) == 0
    {
      NoDosageInside(s, i, d, w, p);
    }
    NoMatchKept(s, i, i + d);
  }

  /** No dosage starts at a digit of such a number. */
  lemma {:induction false} NoDosageInside(s: string, i: nat, d: nat, w: nat, p: nat)
    requires PlainNumberAt(s, i, d, w) && i <= p < i + d
    ensures DosageMatch(s, p) == 0
  {
    var e := i + d;
    var j := e + w;
    DigitRunTo(s, p, e);
    SpaceRunTo(s, e, j);
    NoDosageAt(s, p, e, j);
  }

  /** Digits from `p` to `e`, whitespace from `e` to `j`, and neither "mg" at
      `e` nor a final "s" at `j`: no dosage starts at `p`. */
  lemma NoDosageAt(s: string, p: nat, e: nat, j: nat)
    requires p < e <= j <= |s| && DigitRun(s, p) == e - p && SpaceRun(s, e) == j - e
    requires !(e + 2 <= |s| && s[e..e + 2] == "mg")
    requires !(j < |s| && s[j] == 's' && (j + 1 == |s| || (j + 2 == |s| && s[j + 1] == '\n')))
    ensures DosageMatch(s, p) == 0
  {
    var d := DigitRun(s, p);
    assert p + d == e && e + SpaceRun(s, e) == j;
  }

  /** A stretch `s[i..k]` where no dosage starts is copied. */
  lemma {:induction false} NoMatchKept(s: string, i: nat, k: nat)
    requires i <= k <= |s| && forall p :: i <= p < k ==> DosageMatch(s, p) == 0
    decreases k - i
    ensures RemoveDosageFrom(s, i) == s[i..k] + RemoveDosageFrom(s, k)
  {
    if i < k {
      NoMatchKept(s, i + 1, k);
      Regroup(s, i, k, RemoveDosageFrom(s, i), RemoveDosageFrom(s, i + 1), RemoveDosageFrom(s, k));
    }
  }

  /** The Apollo fallback: a product slug made readable. Hyphens become spaces,
      dosages and a trailing pack size are deleted, then "tablet", and the rest
      is trimmed and title-cased. */
  function ApolloName(slug: string): string {
    Title(Strip(RemoveAll(RemoveDosageFrom(ReplaceChar(slug, '-', ' '), 0), "tablet")))
  }

  /** A lower-case word the "tablet" removal leaves alone. */
  predicate PlainWord(w: string) {
    w != [] && (forall j :: 0 <= j < |w| ==> IsLower(w[j])) && !Contains(w, "tablet")
  }

  /** A product slug "<word>-<digits>mg" names the title-cased word: the
      hyphen becomes a space, the dosage is deleted and the space trimmed, so
      "dolo-650mg" gives "Dolo". */
  lemma ApolloNameOfDosedSlug(w: string, d: string)
    requires PlainWord(w) && d != [] && forall j :: 0 <= j < |d| ==> IsDigit(d[j])
    ensures ApolloName(w + "-" + d + "mg") == Title(w)
  {
    assert '-' !in w && '-' !in d by {
      assert forall j :: 0 <= j < |w| ==> w[j] != '-';
      assert forall j :: 0 <= j < |d| ==> d[j] != '-';
    }
    SpacedSlug(w, d);
    DosedSlugKept(w, d);
    PlainWordKept(w);
    StripTrailingSpace(w);
  }

  /** The hyphen after the word is the slug's only one. */
  lemma SpacedSlug(w: string, d: string)
    requires '-' !in w && '-' !in d
    ensures ReplaceChar(w + "-" + d + "mg", '-', ' ') == (w + " ") + (d + "mg")
  {
    var tail := d + "mg";
    assert '-' !in tail;
    assert w + "-" + d + "mg" == w + ['-'] + tail;
    ReplaceSeparator(w, tail, '-', ' ');
  }

  /** Replacing the one `a` between `x` and `y` by `b`. */
  lemma ReplaceSeparator(x: string, y: string, a: char, b: char)
    requires a !in x && a !in y
    ensures ReplaceChar(x + [a] + y, a, b) == (x + [b]) + y
  {
    var r := ReplaceChar(x + [a] + y, a, b);
    forall i | 0 <= i < |r|
      ensures r[i] == ((x + [b]) + y)[i]
    {
      if i < |x| {
        assert (x + [a] + y)[i] == x[i];
      } else if i > |x| {
        assert (x + [a] + y)[i] == y[i - |x| - 1];
      }
    }
  }

  /** The dosage after the word and its space is the only text deleted. */
  lemma DosedSlugKept(w: string, d: string)
    requires (forall j :: 0 <= j < |w| ==> !IsDigit(w[j])) && d != [] && forall j :: 0 <= j < |d| ==> IsDigit(d[j])
    ensures RemoveDosageFrom((w + " ") + (d + "mg"), 0) == w + " "
  {
    var s := (w + " ") + (d + "mg");
    assert s[..|w| + 1] == w + " ";
    assert RemoveDosageFrom(s, 0) == s[..|w| + 1] by {
      DosedSlugShape(w, d);
      DosedTextKept(s, |w| + 1, |d|);
    }
  }

  /** Text ending in a dosage loses just the dosage. */
  lemma DosedTextKept(s: string, k: nat, n: nat)
    requires |s| == k + n + 2 && n > 0
    requires forall j :: 0 <= j < k ==> !IsDigit(s[j])
    requires (forall j :: k <= j < k + n ==> IsDigit(s[j])) && s[k + n..k + n + 2] == "mg"
    ensures RemoveDosageFrom(s, 0) == s[..k]
  {
    DosageDropped(s, k, n);
    assert RemoveDosageFrom(s, k + n + 2) == [];
    DigitFreeDosage(s, 0, k);
    assert s[0..k] + [] == s[..k];
  }

  /** Where the word, the digits and the unit sit in "<word> <digits>mg". */
  lemma DosedSlugShape(w: string, d: string)
    requires (forall j :: 0 <= j < |w| ==> !IsDigit(w[j])) && forall j :: 0 <= j < |d| ==> IsDigit(d[j])
    ensures var s := (w + " ") + (d + "mg"); var k := |w| + 1;
      && |s| == k + |d| + 2
      && (forall j :: 0 <= j < k ==> !IsDigit(s[j]))
      && (forall j :: k <= j < k + |d| ==> IsDigit(s[j]))
      && s[k + |d|..k + |d| + 2] == "mg"
  {
    var head := w + " ";
    var tail := d + "mg";
    var s := head + tail;
    var k := |head|;
    forall j | 0 <= j < k
      ensures !IsDigit(s[j])
    {
      assert s[j] == head[j];
      if j < |w| {
        assert head[j] == w[j];
      }
    }
    forall j | k <= j < k + |d|
      ensures IsDigit(s[j])
    {
      assert s[j] == tail[j - k] == d[j - k];
    }
    assert s[k + |d|..] == tail[|d|..] == "mg";
  }

  /** Text without "tablet" is unchanged by its removal. */
  lemma PlainWordKept(w: string)
    requires PlainWord(w)
    ensures RemoveAll(w + " ", "tablet") == w + " "
  {
    var s := w + " ";
    forall j: nat
      ensures !OccursAt(s, "tablet", j)
    {
      if j + 6 <= |w| {
        assert s[j..j + 6] == w[j..j + 6];
        assert !OccursAt(w, "tablet", j);
      } else if j + 6 == |s| {
        assert s[j + 5] == ' ';
      }
    }
    RemoveAllMissing(s, "tablet");
  }

  /** A product slug "<word>-<digits>mg-tablet" also names the title-cased
      word: the dosage is deleted, then "tablet", and the two spaces left
      behind are trimmed, so "dolo-650mg-tablet" gives "Dolo". */
  lemma {:induction false} ApolloNameOfTabletSlug(w: string, d: string)
    requires PlainWord(w) && d != [] && forall j :: 0 <= j < |d| ==> IsDigit(d[j])
    ensures ApolloName(w + "-" + d + "mg-tablet") == Title(w)
  {
    TabletSlugSpaced(w, d);
    TabletSlugDosage(w, d);
    TabletSlugTrimmed(w);
  }

  /** Removing "tablet" and trimming leaves the word. */
  lemma {:induction false} TabletSlugTrimmed(w: string)
    requires PlainWord(w)
    ensures Strip(RemoveAll(((w + " ") + " ") + "tablet", "tablet")) == w
  {
    TabletRemoved(w);
    TrailingSpacesStripped(w, "  ");
  }

  /** Trailing whitespace after a word is trimmed. */
  lemma {:induction false} TrailingSpacesStripped(w: string, b: string)
    requires PlainWord(w) && AllSpace(b)
    ensures Strip(w + b) == w
  {
    PlainWordUnstripped(w);
    LStripAppend(w, b);
    RStripSpaces(w, b);
  }

  /** A word has no whitespace to strip on either side. */
  lemma PlainWordUnstripped(w: string)
    requires PlainWord(w)
    ensures LStrip(w) == w && RStrip(w) == w
  {
    assert LStrip(w) == w;
    assert RStrip(w) == w;
  }

  /** Both hyphens of the slug become spaces. */
  lemma {:induction false} TabletSlugSpaced(w: string, d: string)
    requires PlainWord(w) && forall j :: 0 <= j < |d| ==> IsDigit(d[j])
    ensures ReplaceChar(w + "-" + d + "mg-tablet", '-', ' ') == ((w + " ") + (d + "mg")) + " tablet"
  {
    var slug := w + "-" + d + "mg-tablet";
    var spaced := ((w + " ") + (d + "mg")) + " tablet";
    var r := ReplaceChar(slug, '-', ' ');
    assert |r| == |spaced|;
    forall i | 0 <= i < |r|
      ensures r[i] == spaced[i]
    {
      if i < |w| {
        assert slug[i] == w[i] == spaced[i];
      } else if i == |w| {
        assert slug[i] == '-';
      } else if i < |w| + 1 + |d| {
        assert slug[i] == d[i - |w| - 1] == spaced[i];
      } else if i == |w| + 1 + |d| + 2 {
        assert slug[i] == '-';
      } else {
        assert slug[i] == spaced[i];
      }
    }
  }

  /** The dosage between the word and " tablet" is the only text deleted. */
  lemma {:induction false} TabletSlugDosage(w: string, d: string)
    requires PlainWord(w) && d != [] && forall j :: 0 <= j < |d| ==> IsDigit(d[j])
    ensures RemoveDosageFrom(((w + " ") + (d + "mg")) + " tablet", 0) == ((w + " ") + " ") + "tablet"
  {
    var t := " tablet";
    assert forall m :: 0 <= m < |t| ==> !IsDigit(t[m]);
    DosageBeforeTail(w, d, t);
    assert (w + " ") + t == ((w + " ") + " ") + "tablet";
  }

  /** After "<word> <digits>mg", a digit-free tail `t` is copied. */
  lemma {:induction false} DosageBeforeTail(w: string, d: string, t: string)
    requires (forall j :: 0 <= j < |w| ==> !IsDigit(w[j])) && d != [] && forall j :: 0 <= j < |d| ==> IsDigit(d[j])
    requires forall m :: 0 <= m < |t| ==> !IsDigit(t[m])
    ensures RemoveDosageFrom(((w + " ") + (d + "mg")) + t, 0) == (w + " ") + t
  {
    var x := (w + " ") + (d + "mg");
    var s := x + t;
    var k := |w| + 1;
    var e := k + |d| + 2;
    DosedSlugShape(w, d);
    forall j | 0 <= j < |x|
      ensures s[j] == x[j]
    {
    }
    forall j | e <= j < |s|
      ensures !IsDigit(s[j])
    {
      assert s[j] == t[j - e];
    }
    assert s[k + |d|..k + |d| + 2] == x[k + |d|..k + |d| + 2];
    DosedMiddleKept(s, k, |d|);
    assert s[..k] == w + " ";
    assert s[e..] == t;
  }

  /** Digit-free text around one dosage loses just the dosage. */
  lemma {:induction false} DosedMiddleKept(s: string, k: nat, n: nat)
    requires k + n + 2 <= |s| && n > 0
    requires forall j :: 0 <= j < k ==> !IsDigit(s[j])
    requires (forall j :: k <= j < k + n ==> IsDigit(s[j])) && s[k + n..k + n + 2] == "mg"
    requires forall j :: k + n + 2 <= j < |s| ==> !IsDigit(s[j])
    ensures RemoveDosageFrom(s, 0) == s[..k] + s[k + n + 2..]
  {
    var e := k + n + 2;
    var tail := RemoveDosageFrom(s, e);
    assert tail == s[e..] by {
      DigitFreeDosage(s, e, |s|);
      assert s[e..|s|] + [] == s[e..];
    }
    assert RemoveDosageFrom(s, k) == tail by {
      DosageDropped(s, k, n);
    }
    assert RemoveDosageFrom(s, 0) == s[..k] + RemoveDosageFrom(s, k) by {
      DigitFreeDosage(s, 0, k);
      assert s[0..k] == s[..k];
    }
  }

  /** "tablet" after the word and two spaces is removed, and nothing else. */
  lemma {:induction false} TabletRemoved(w: string)
    requires PlainWord(w)
    ensures RemoveAll(((w + " ") + " ") + "tablet", "tablet") == w + "  "
  {
    var a := (w + " ") + " ";
    var s := a + "tablet";
    forall j | 0 <= j < |a|
      ensures !OccursAt(s, "tablet", j)
    {
      if j + 6 <= |w| {
        assert s[j..j + 6] == w[j..j + 6];
        assert !OccursAt(w, "tablet", j);
      } else if j + 6 <= |s| {
        var m := if j < |w| then |w| - j else 0;
        assert s[j..j + 6][m] == s[j + m] == ' ';
        assert "tablet"[m] != ' ';
      }
    }
    RemoveAllCopy(a, "tablet", "tablet");
    RemoveAllFront("tablet", []);
    assert "tablet" + [] == "tablet";
    assert a + [] == w + "  ";
  }

  /** A path segment the generic fallback accepts. */
  predicate IsSlugSegment(part: string) {
    |part| > 3 && '-' in part && '?' !in part
  }

  /** Index of the first part at or after `k` that the generic fallback accepts. */
  function FirstSlugSegment(parts: seq<string>, k: nat): (r: Option<nat>)
    decreases |parts| - k
    ensures r.Some? ==> k <= r.value < |parts| && IsSlugSegment(parts[r.value])
    ensures r.Some? ==> forall j :: k <= j < r.value ==> !IsSlugSegment(parts[j])
    ensures r.None? ==> forall j :: k <= j < |parts| ==> !IsSlugSegment(parts[j])
  {
    if k >= |parts| then None
    else if IsSlugSegment(parts[k]) then Some(k)
    else FirstSlugSegment(parts, k + 1)
  }

  /** The generic fallback: the first accepted '/'-segment of the address,
      hyphens turned into spaces and title-cased. */
  function SegmentName(url: string): Option<string> {
    var parts := Split(url, '/');
    match FirstSlugSegment(parts, 0)
    case Some(k) => Some(Title(ReplaceChar(parts[k], '-', ' ')))
    case None => None
  }

  /** The generic part of the extractor: the first `h1`, then the address. */
  function GenericName(heading: Probe, url: string): Option<string> {
    match heading
    case Raises => None
    case Shown(t) => Some(Strip(t))
    case Hidden => SegmentName(url)
  }

  /** `extract_medicine_name_from_url` */
  function ExtractMedicineNameFromUrl(page: TitlePage, url: string): Option<string> {
    match SiteOf(url)
    case None => GenericName(page.heading, url)
    case Some(site) =>
      match page.site
      case Raises => None
      case Shown(t) => Some(Strip(t))
      case Hidden =>
        if site == 0 then
          match MedicineSlug(url)
          case Some(slug) => Some(ApolloName(slug))
          case None => GenericName(page.heading, url)
        else GenericName(page.heading, url)
  }

  function MedicineSlug(url: string): Option<string> {
    MedicineSlugFrom(url, 0)
  }

  /** The Apollo fallback never yields a hyphen or a question mark. */
  lemma ApolloNameClean(slug: string)
    requires '?' !in slug
    ensures '-' !in ApolloName(slug) && '?' !in ApolloName(slug)
  {
    var spaced := ReplaceChar(slug, '-', ' ');
    assert '-' !in spaced && '?' !in spaced;
    var stripped := Strip(RemoveAll(RemoveDosageFrom(spaced, 0), "tablet"));
    StripChars(RemoveAll(RemoveDosageFrom(spaced, 0), "tablet"), '-');
    StripChars(RemoveAll(RemoveDosageFrom(spaced, 0), "tablet"), '?');
    TitleKeepsNonLetters(stripped, '-');
    TitleKeepsNonLetters(stripped, '?');
  }

  /** The generic fallback takes the first accepted segment, and its name has
      no hyphen and no question mark; None means no segment is accepted. */
  lemma SegmentNameSpec(url: string)
    ensures SegmentName(url).Some? ==>
      '-' !in SegmentName(url).value && '?' !in SegmentName(url).value &&
      exists k :: 0 <= k < |Split(url, '/')| && IsSlugSegment(Split(url, '/')[k]) &&
        (forall j :: 0 <= j < k ==> !IsSlugSegment(Split(url, '/')[j])) &&
        SegmentName(url).value == Title(ReplaceChar(Split(url, '/')[k], '-', ' '))
    ensures SegmentName(url).None? ==> forall k :: 0 <= k < |Split(url, '/')| ==> !IsSlugSegment(Split(url, '/')[k])
  {
    var parts := Split(url, '/');
    match FirstSlugSegment(parts, 0)
    case Some(k) =>
      var spaced := ReplaceChar(parts[k], '-', ' ');
      assert '-' !in spaced && '?' !in spaced;
      TitleKeepsNonLetters(spaced, '-');
      TitleKeepsNonLetters(spaced, '?');
    case None =>
  }

  /** A name, if any, with neither '-' nor '?' in it. */
  predicate HyphenFree(name: Option<string>) {
    name.Some? ==> '-' !in name.value && '?' !in name.value
  }

  /** Whenever the name is read from the address rather than from the page,
      it contains neither '-' nor '?'. */
  lemma AddressNamesClean(page: TitlePage, url: string)
    requires !page.site.Shown? && !page.heading.Shown?
    ensures HyphenFree(ExtractMedicineNameFromUrl(page, url))
  {
    assert HyphenFree(SegmentName(url)) by { SegmentNameSpec(url); }
    assert HyphenFree(GenericName(page.heading, url));
    var slug := MedicineSlug(url);
    if slug.Some? {
      ApolloNameClean(slug.value);
      assert HyphenFree(Some(ApolloName(slug.value)));
    }
  }

  /** A visible title always wins on a known pharmacy, an exception from its
      locator gives None, and unknown sites never consult the pharmacy locator. */
  lemma DispatchSpec(page: TitlePage, url: string)
    ensures SiteOf(url).Some? && page.site.Shown? ==>
      ExtractMedicineNameFromUrl(page, url) == Some(Strip(page.site.text))
    ensures SiteOf(url).Some? && page.site.Raises? ==> ExtractMedicineNameFromUrl(page, url).None?
    ensures SiteOf(url).None? ==> ExtractMedicineNameFromUrl(page, url) == GenericName(page.heading, url)
  {
  }
}
