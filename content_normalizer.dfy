/** The content normalizer of `medicine_info.py` (`convert_html_to_markdown`):
    pick the main content region of a cleaned page, render it as Markdown,
    collapse runs of blank lines and append the source address. */
module ContentNormalizer {
  import opened Wrappers
  import opened Text

  /** Candidate main-content selectors, tried in this order. */
  const ContentSelectors: seq<string> := [
    "main", "article", "#content", ".content", ".main", ".main-content",
    ".product-detail", ".drug-info", ".medicine-info", ".product-description", "div[role=main]"
  ]

  /** A region qualifies when its stripped text is longer than this. */
  const MinContentLength: nat := 200

  /** The region handed to the Markdown converter: element `element` of the
      matches of selector `selector`, or the document body. */
  datatype Region = Candidate(selector: nat, element: nat) | Body

  /** What the conversion of a region yields: its Markdown, or the text of the
      exception parsing or converting raised. */
  datatype Conversion = Converted(markdown: string) | Failed(error: string)

  /** A page after noise removal: for each candidate selector, in order, the
      stripped text lengths of its matching elements in document order; and
      the Markdown converter applied to a region. */
  datatype HtmlPage = HtmlPage(candidates: seq<seq<nat>>, render: Region -> Conversion)

  /** The first element at or after `from` whose text is long enough. */
  function FirstLong(lengths: seq<nat>, from: nat): (r: Option<nat>)
    decreases |lengths| - from
    ensures r.Some? ==> from <= r.value < |lengths| && lengths[r.value] > MinContentLength
    ensures r.Some? ==> forall j :: from <= j < r.value ==> lengths[j] <= MinContentLength
    ensures r.None? ==> forall j :: from <= j < |lengths| ==> lengths[j] <= MinContentLength
  {
    if from >= |lengths| then None
    else if lengths[from] > MinContentLength then Some(from)
    else FirstLong(lengths, from + 1)
  }

  /** The region chosen when selectors are tried from index `k` on. */
  function MainRegionFrom(candidates: seq<seq<nat>>, k: nat): (r: Region)
    decreases |candidates| - k
    ensures r.Candidate? ==> k <= r.selector < |candidates| && r.element < |candidates[r.selector]|
    ensures r.Candidate? ==> candidates[r.selector][r.element] > MinContentLength
    ensures r.Candidate? ==> forall j :: 0 <= j < r.element ==> candidates[r.selector][j] <= MinContentLength
    ensures r.Candidate? ==> forall s, j :: k <= s < r.selector && 0 <= j < |candidates[s]| ==> candidates[s][j] <= MinContentLength
    ensures r.Body? ==> forall s, j :: k <= s < |candidates| && 0 <= j < |candidates[s]| ==> candidates[s][j] <= MinContentLength
  {
    if k >= |candidates| then Body
    else match FirstLong(candidates[k], 0)
      case Some(e) => Candidate(k, e)
      case None => MainRegionFrom(candidates, k + 1)
  }

  /** The main-content rule: the first long-enough element of the first
      selector that has one, else the body. */
  function MainRegion(candidates: seq<seq<nat>>): Region {
    MainRegionFrom(candidates, 0)
  }

  /** The selector scan of `convert_html_to_markdown`. */
  method ChooseMainContent(candidates: seq<seq<nat>>) returns (region: Region)
    ensures region == MainRegion(candidates)
  {
    region := Body;
    var k := 0;
    while k < |candidates|
      invariant 0 <= k <= |candidates|
      invariant MainRegionFrom(candidates, 0) == MainRegionFrom(candidates, k)
    {
      var elements := candidates[k];
      var found: Option<nat> := None;
      var e := 0;
      while e < |elements|
        invariant 0 <= e <= |elements|
        invariant FirstLong(elements, 0) == FirstLong(elements, e)
      {
        if elements[e] > MinContentLength {
          found := Some(e);
          break;
        }
        e := e + 1;
      }
      if found.Some? {
        region := Candidate(k, found.value);
        return;
      }
      k := k + 1;
    }
  }

  /** Length of the run of newlines starting at `i`. */
  function NewlineRun(s: string, i: nat): (n: nat)
    requires i <= |s|
    decreases |s| - i
    ensures i + n <= |s|
    ensures forall j :: i <= j < i + n ==> s[j] == '\n'
    ensures i + n == |s| || s[i + n] != '\n'
  {
    if i < |s| && s[i] == '\n' then 1 + NewlineRun(s, i + 1) else 0
  }

  /** `re.sub(r'\n{3,}', '\n\n', s)` scanning from position `i`: every maximal
      run of three or more newlines becomes exactly two. */
  function CollapseFrom(s: string, i: nat): string
    requires i <= |s|
    decreases |s| - i
  {
    if i == |s| then []
    else
      var n := NewlineRun(s, i);
      if n >= 3 then "\n\n" + CollapseFrom(s, i + n)
      else if n > 0 then s[i..i + n] + CollapseFrom(s, i + n)
      else [s[i]] + CollapseFrom(s, i + 1)
  }

  function CollapseNewlines(s: string): string {
    CollapseFrom(s, 0)
  }

  /** `s` has no three newlines in a row. */
  predicate NoTriple(s: string) {
    |s| < 3 || (!(s[0] == '\n' && s[1] == '\n' && s[2] == '\n') && NoTriple(s[1..]))
  }

  /** `s` with every newline removed. */
  function DropNewlines(s: string): string {
    if s == [] then [] else (if s[0] == '\n' then [] else [s[0]]) + DropNewlines(s[1..])
  }

  lemma {:induction false} DropNewlinesAppend(a: string, b: string)
    ensures DropNewlines(a + b) == DropNewlines(a) + DropNewlines(b)
  {
    if a == [] {
      assert a + b == b;
    } else {
      assert (a + b)[1..] == a[1..] + b;
      DropNewlinesAppend(a[1..], b);
    }
  }

  lemma {:induction false} DropNewlinesOfNewlines(s: string)
    requires forall j :: 0 <= j < |s| ==> s[j] == '\n'
    ensures DropNewlines(s) == []
  {
    if s != [] {
      DropNewlinesOfNewlines(s[1..]);
    }
  }

  /** The collapse leaves no three newlines in a row, and its output starts
      with the character it starts from when that is not a newline. */
  lemma {:induction false} CollapseFromNoTriple(s: string, i: nat)
    requires i <= |s|
    decreases |s| - i
    ensures NoTriple(CollapseFrom(s, i))
    ensures i < |s| && s[i] != '\n' ==> |CollapseFrom(s, i)| > 0 && CollapseFrom(s, i)[0] == s[i]
  {
    if i < |s| {
      var n := NewlineRun(s, i);
      if n > 0 {
        var head := CollapseRunHead(s, i);
        CollapseFromNoTriple(s, i + n);
        NewlinesThenText(head, CollapseFrom(s, i + n));
      } else {
        CollapseFromNoTriple(s, i + 1);
        CharThenText(s, i);
      }
    }
  }

  /** A character other than a newline in front of collapsed text adds no run
      of three. */
  lemma CharThenText(s: string, i: nat)
    requires i < |s| && s[i] != '\n' && NoTriple(CollapseFrom(s, i + 1))
    ensures NoTriple(CollapseFrom(s, i))
    ensures |CollapseFrom(s, i)| > 0 && CollapseFrom(s, i)[0] == s[i]
  {
    var rest := CollapseFrom(s, i + 1);
    assert CollapseFrom(s, i) == [s[i]] + rest;
    assert ([s[i]] + rest)[1..] == rest;
  }

  /** At most two newlines followed by text that does not start with a newline
      add no run of three. */
  lemma NewlinesThenText(nl: string, rest: string)
    requires 0 < |nl| <= 2 && forall j :: 0 <= j < |nl| ==> nl[j] == '\n'
    requires NoTriple(rest) && (rest == [] || rest[0] != '\n')
    ensures NoTriple(nl + rest)
  {
    var t := nl + rest;
    if |nl| == 2 {
      assert t[1..] == [nl[1]] + rest;
      assert ([nl[1]] + rest)[1..] == rest;
    } else {
      assert t[1..] == rest;
    }
  }

  /** The collapse deletes newlines only: the text between them is unchanged. */
  lemma {:induction false} CollapseFromKeepsText(s: string, i: nat)
    requires i <= |s|
    decreases |s| - i
    ensures DropNewlines(CollapseFrom(s, i)) == DropNewlines(s[i..])
  {
    if i < |s| {
      var n := NewlineRun(s, i);
      if n > 0 {
        CollapseFromKeepsText(s, i + n);
        KeepsTextRun(s, i, n);
      } else {
        CollapseFromKeepsText(s, i + 1);
        KeepsTextChar(s, i);
      }
    }
  }

  /** A run of newlines and what the collapse makes of it both vanish. */
  lemma KeepsTextRun(s: string, i: nat, n: nat)
    requires i < |s| && n == NewlineRun(s, i) && n > 0
    requires DropNewlines(CollapseFrom(s, i + n)) == DropNewlines(s[i + n..])
    ensures DropNewlines(CollapseFrom(s, i)) == DropNewlines(s[i..])
  {
    RunVanishes(s, i);
    CollapsedRunVanishes(s, i);
  }

  /** Without its newlines, text is what follows its leading newline run. */
  lemma RunVanishes(s: string, i: nat)
    requires i <= |s|
    ensures DropNewlines(s[i..]) == DropNewlines(s[i + NewlineRun(s, i)..])
  {
    var n := NewlineRun(s, i);
    assert s[i..] == s[i..i + n] + s[i + n..];
    DropNewlinesAppend(s[i..i + n], s[i + n..]);
    DropNewlinesRun(s, i);
  }

  /** What the collapse puts for a newline run vanishes too. */
  lemma CollapsedRunVanishes(s: string, i: nat)
    requires i < |s| && NewlineRun(s, i) > 0
    ensures DropNewlines(CollapseFrom(s, i)) == DropNewlines(CollapseFrom(s, i + NewlineRun(s, i)))
  {
    var n := NewlineRun(s, i);
    var rest := CollapseFrom(s, i + n);
    var head := CollapseRunHead(s, i);
    DropNewlinesAppend(head, rest);
    DropNewlinesOfNewlines(head);
  }

  /** The collapse of a newline run followed by the rest. */
  lemma CollapseRunHead(s: string, i: nat) returns (head: string)
    requires i < |s| && NewlineRun(s, i) > 0
    ensures head == (if NewlineRun(s, i) >= 3 then "\n\n" else s[i..i + NewlineRun(s, i)])
    ensures 0 < |head| <= 2 && forall j :: 0 <= j < |head| ==> head[j] == '\n'
    ensures CollapseFrom(s, i) == head + CollapseFrom(s, i + NewlineRun(s, i))
  {
    head := if NewlineRun(s, i) >= 3 then "\n\n" else s[i..i + NewlineRun(s, i)];
  }

  /** A run of newlines drops out entirely. */
  lemma {:induction false} DropNewlinesRun(s: string, i: nat)
    requires i <= |s|
    decreases |s| - i
    ensures DropNewlines(s[i..i + NewlineRun(s, i)]) == []
  {
    if i < |s| && s[i] == '\n' {
      DropNewlinesRun(s, i + 1);
      var n := NewlineRun(s, i);
      assert s[i..i + n][1..] == s[i + 1..i + n];
    } else {
      assert s[i..i] == [];
    }
  }

  /** A character other than a newline is kept by the collapse. */
  lemma KeepsTextChar(s: string, i: nat)
    requires i < |s| && s[i] != '\n'
    requires DropNewlines(CollapseFrom(s, i + 1)) == DropNewlines(s[i + 1..])
    ensures DropNewlines(CollapseFrom(s, i)) == DropNewlines(s[i..])
  {
    assert CollapseFrom(s, i) == [s[i]] + CollapseFrom(s, i + 1);
    assert s[i..] == [s[i]] + s[i + 1..];
    DropKeepsChar(s[i], s[i + 1..]);
    DropKeepsChar(s[i], CollapseFrom(s, i + 1));
  }

  /** A leading character other than a newline survives `DropNewlines`. */
  lemma DropKeepsChar(c: char, x: string)
    requires c != '\n'
    ensures DropNewlines([c] + x) == [c] + DropNewlines(x)
  {
    assert ([c] + x)[1..] == x;
  }

  /** Three newlines in a row at `j` contradict `NoTriple`. */
  lemma NoTripleAt(s: string, j: nat)
    requires NoTriple(s) && j + 2 < |s|
    ensures !(s[j] == '\n' && s[j + 1] == '\n' && s[j + 2] == '\n')
  {
    if j > 0 {
      NoTripleAt(s[1..], j - 1);
    }
  }

  /** Text without three newlines in a row is left as it is. */
  lemma {:induction false} CollapseFromFixesClean(s: string, i: nat)
    requires i <= |s| && NoTriple(s)
    decreases |s| - i
    ensures CollapseFrom(s, i) == s[i..]
  {
    if i < |s| {
      var n := NewlineRun(s, i);
      if n >= 3 {
        NoTripleAt(s, i);
      } else if n > 0 {
        CollapseFromFixesClean(s, i + n);
        ShortRunKept(s, i);
      } else {
        CollapseFromFixesClean(s, i + 1);
        CharKept(s, i);
      }
    }
  }

  /** A character other than a newline is copied as it is. */
  lemma CharKept(s: string, i: nat)
    requires i < |s| && s[i] != '\n'
    requires CollapseFrom(s, i + 1) == s[i + 1..]
    ensures CollapseFrom(s, i) == s[i..]
  {
    assert CollapseFrom(s, i) == [s[i]] + CollapseFrom(s, i + 1);
    assert s[i..] == [s[i]] + s[i + 1..];
  }

  /** A run of one or two newlines is copied as it is. */
  lemma ShortRunKept(s: string, i: nat)
    requires i < |s| && 0 < NewlineRun(s, i) < 3
    requires CollapseFrom(s, i + NewlineRun(s, i)) == s[i + NewlineRun(s, i)..]
    ensures CollapseFrom(s, i) == s[i..]
  {
    var n := NewlineRun(s, i);
    var head := CollapseRunHead(s, i);
    assert s[i..] == s[i..i + n] + s[i + n..];
  }

  /** Consequences of the collapse rule (`CollapseRunBetween`): no three
      newlines remain, nothing but newlines is removed, text already
      collapsed is unchanged, and so collapsing twice is collapsing once. */
  lemma CollapseSpec(s: string)
    ensures NoTriple(CollapseNewlines(s))
    ensures DropNewlines(CollapseNewlines(s)) == DropNewlines(s)
    ensures NoTriple(s) ==> CollapseNewlines(s) == s
    ensures CollapseNewlines(CollapseNewlines(s)) == CollapseNewlines(s)
  {
    CollapseFromNoTriple(s, 0);
    CollapseFromKeepsText(s, 0);
    assert s[0..] == s;
    if NoTriple(s) {
      CollapseFromFixesClean(s, 0);
    }
    var c := CollapseNewlines(s);
    CollapseFromFixesClean(c, 0);
    assert c[0..] == c;
  }

  /** `n` newlines. */
  function Newlines(n: nat): (r: string)
    ensures |r| == n && forall j :: 0 <= j < n ==> r[j] == '\n'
  {
    seq(n, _ => '\n')
  }

  /** `a` and `b` do not meet inside a run of newlines. */
  predicate Seam(a: string, b: string) {
    a == [] || b == [] || a[|a| - 1] != '\n' || b[0] != '\n'
  }

  /** How many characters the collapse reads at `i`: a whole newline run, or one character. */
  function Step(s: string, i: nat): (k: nat)
    requires i < |s|
    ensures 0 < k && i + k <= |s|
  {
    var n := NewlineRun(s, i);
    if n > 0 then n else 1
  }

  /** What the collapse writes for what it reads at `i`. */
  function Piece(s: string, i: nat): string
    requires i < |s|
  {
    if NewlineRun(s, i) >= 3 then "\n\n" else s[i..i + Step(s, i)]
  }

  /** One step of the collapse. */
  lemma CollapseUnfold(s: string, i: nat, i2: nat)
    requires i < |s| && i2 == i + Step(s, i)
    ensures CollapseFrom(s, i) == Piece(s, i) + CollapseFrom(s, i2)
  {
    if NewlineRun(s, i) == 0 {
      assert s[i..i + 1] == [s[i]];
    }
  }

  /** Texts equal from `i` and from `j` on have the same newline run there. */
  lemma {:induction false} SuffixRun(t: string, i: nat, s: string, j: nat)
    requires i <= |t| && j <= |s| && Tail(t, i) == Tail(s, j)
    decreases |s| - j
    ensures NewlineRun(t, i) == NewlineRun(s, j)
  {
    if j < |s| {
      TailStep(t, i, s, j);
      if s[j] == '\n' {
        SuffixRun(t, i + 1, s, j + 1);
      }
    } else {
      assert i == |t|;
    }
  }

  /** Equal runs and equal first characters give the same step. */
  lemma SamePiece(t: string, i: nat, s: string, j: nat)
    requires i < |t| && j < |s| && t[i] == s[j] && NewlineRun(t, i) == NewlineRun(s, j)
    ensures Step(t, i) == Step(s, j) && Piece(t, i) == Piece(s, j)
  {
    var n := NewlineRun(s, j);
    if 0 < n < 3 {
      var x, y := t[i..i + n], s[j..j + n];
      assert forall m :: 0 <= m < n ==> x[m] == t[i + m] == '\n' == s[j + m] == y[m];
    } else if n == 0 {
      assert t[i..i + 1] == [t[i]] && s[j..j + 1] == [s[j]];
    }
  }

  /** Texts equal from `i` and from `j` on collapse alike from there. */
  lemma {:induction false} CollapseSuffix(t: string, i: nat, s: string, j: nat)
    requires i <= |t| && j <= |s| && Tail(t, i) == Tail(s, j)
    decreases |s| - j
    ensures CollapseFrom(t, i) == CollapseFrom(s, j)
  {
    if j < |s| {
      SuffixRun(t, i, s, j);
      TailStep(t, i, s, j);
      SamePiece(t, i, s, j);
      var k := Step(s, j);
      var i2, j2 := i + k, j + k;
      TailAdvance(t, i, s, j, k);
      CollapseSuffix(t, i2, s, j2);
      SameStep(t, i, i2, s, j, j2);
    } else {
      assert i == |t|;
    }
  }

  /** The collapse of a text behind a prefix is the collapse of the text itself. */
  lemma ShiftCollapse(p: string, s: string, j: nat)
    requires j <= |s|
    ensures CollapseFrom(p + s, |p| + j) == CollapseFrom(s, j)
  {
    TailShift(p, s, j);
    CollapseSuffix(p + s, |p| + j, s, j);
  }

  /** Two texts whose steps at `i` and `j` agree, and whose rests collapse
      alike, collapse alike from `i` and `j`. */
  lemma SameStep(t: string, i: nat, i2: nat, s: string, j: nat, j2: nat)
    requires i < |t| && j < |s|
    requires i2 == i + Step(t, i) && j2 == j + Step(s, j) && Piece(t, i) == Piece(s, j)
    requires CollapseFrom(t, i2) == CollapseFrom(s, j2)
    ensures CollapseFrom(t, i) == CollapseFrom(s, j)
  {
    CollapseUnfold(t, i, i2);
    CollapseUnfold(s, j, j2);
  }

  /** Across a seam, a newline run inside `a` is not continued by `b`. */
  lemma {:induction false} RunInPrefix(a: string, b: string, i: nat)
    requires i < |a| && Seam(a, b)
    decreases |a| - i
    ensures NewlineRun(a + b, i) == NewlineRun(a, i)
  {
    assert (a + b)[i] == a[i];
    if a[i] == '\n' {
      if i + 1 < |a| {
        RunInPrefix(a, b, i + 1);
      } else if b != [] {
        assert (a + b)[|a|] == b[0];
      }
    }
  }

  /** Across a seam, a step inside `a` reads and writes what it does on `a`. */
  lemma PrefixPiece(a: string, b: string, i: nat)
    requires i < |a| && Seam(a, b)
    ensures Step(a + b, i) == Step(a, i) && Piece(a + b, i) == Piece(a, i)
  {
    RunInPrefix(a, b, i);
    var k := Step(a, i);
    assert (a + b)[i..i + k] == a[i..i + k];
  }

  lemma {:induction false} CollapseAppendFrom(a: string, b: string, i: nat)
    requires i <= |a| && Seam(a, b)
    decreases |a| - i
    ensures CollapseFrom(a + b, i) == CollapseFrom(a, i) + CollapseFrom(b, 0)
  {
    if i == |a| {
      AppendAtEnd(a, b);
    } else {
      var t := a + b;
      PrefixPiece(a, b, i);
      var i2 := i + Step(a, i);
      CollapseAppendFrom(a, b, i2);
      ExtendedStep(t, a, i, i2, CollapseFrom(a, i2), CollapseFrom(b, 0));
    }
  }

  /** Past the end of `a`, the collapse of `a + b` is that of `b`. */
  lemma AppendAtEnd(a: string, b: string)
    ensures CollapseFrom(a + b, |a|) == CollapseFrom(a, |a|) + CollapseFrom(b, 0)
  {
    ShiftCollapse(a, b, 0);
  }

  /** When `t` and `s` take the same step at `i`, and the rest of `t`
      collapses to the rest of `s` followed by `y`, so does all of `t`. */
  lemma ExtendedStep(t: string, s: string, i: nat, i2: nat, x: string, y: string)
    requires i < |t| && i < |s|
    requires i2 == i + Step(t, i) == i + Step(s, i) && Piece(t, i) == Piece(s, i)
    requires CollapseFrom(t, i2) == x + y && CollapseFrom(s, i2) == x
    ensures CollapseFrom(t, i) == CollapseFrom(s, i) + y
  {
    CollapseUnfold(t, i, i2);
    CollapseUnfold(s, i, i2);
    PieceRegroup(Piece(s, i), x, y);
  }

  lemma PieceRegroup(a: string, b: string, c: string)
    ensures a + (b + c) == (a + b) + c
  {
  }

  /** Text split where no newline run is cut collapses piece by piece. */
  lemma CollapseAppend(a: string, b: string)
    requires Seam(a, b)
    ensures CollapseNewlines(a + b) == CollapseNewlines(a) + CollapseNewlines(b)
  {
    CollapseAppendFrom(a, b, 0);
  }

  /** A run of newlines all of which remain to be read. */
  lemma {:induction false} NewlineRunAll(n: nat, i: nat)
    requires i <= n
    decreases n - i
    ensures NewlineRun(Newlines(n), i) == n - i
  {
    if i < n {
      NewlineRunAll(n, i + 1);
    }
  }

  /** A run of three or more newlines becomes exactly two; a shorter one stays. */
  lemma CollapseRun(n: nat)
    ensures CollapseNewlines(Newlines(n)) == if n >= 3 then "\n\n" else Newlines(n)
  {
    var s := Newlines(n);
    if n > 0 {
      NewlineRunAll(n, 0);
      var head := CollapseRunHead(s, 0);
      assert s[0..n] == s;
    }
  }

  /** The collapse rule, run by run: between text that does not end and
      text that does not start with a newline, `n` newlines become two when
      `n` is at least three and stay as they are otherwise, and the text on
      either side is collapsed on its own. */
  lemma CollapseRunBetween(a: string, n: nat, b: string)
    requires n > 0 && (a == [] || a[|a| - 1] != '\n') && (b == [] || b[0] != '\n')
    ensures CollapseNewlines(a + Newlines(n) + b) ==
      CollapseNewlines(a) + (if n >= 3 then "\n\n" else Newlines(n)) + CollapseNewlines(b)
  {
    CollapseAppend(a, Newlines(n));
    CollapseAppend(a + Newlines(n), b);
    CollapseRun(n);
  }

  /** Four newlines between two paragraphs become one blank line. */
  lemma CollapseExample()
    ensures CollapseNewlines("a\n\n\n\nb") == "a\n\nb"
  {
    var s := "a\n\n\n\nb";
    assert NewlineRun(s, 5) == 0;
    assert NewlineRun(s, 1) == 4;
    assert NewlineRun(s, 0) == 0;
  }

  const SourcePrefix: string := "\n\nSource URL: "
  const FailurePrefix: string := "Failed to convert content: "

  /** `convert_html_to_markdown`: never raises; a successful conversion is
      collapsed and followed by the source line. */
  function ConvertHtmlToMarkdown(page: HtmlPage, url: string): string {
    match page.render(MainRegion(page.candidates))
    case Converted(md) => CollapseNewlines(md) + SourcePrefix + url
    case Failed(e) => FailurePrefix + e
  }

  /** The normalizer's output: the collapsed Markdown of the main region
      followed by "Source URL: <url>" after a blank line, or the failure text. */
  lemma NormalizerSpec(page: HtmlPage, url: string)
    ensures var doc := ConvertHtmlToMarkdown(page, url);
      match page.render(MainRegion(page.candidates))
      case Converted(md) =>
        doc == CollapseNewlines(md) + SourcePrefix + url &&
        |doc| >= |SourcePrefix| + |url| && doc[|doc| - |SourcePrefix| - |url|..] == SourcePrefix + url &&
        NoTriple(doc[..|doc| - |SourcePrefix| - |url|]) &&
        DropNewlines(doc[..|doc| - |SourcePrefix| - |url|]) == DropNewlines(md)
      case Failed(e) => doc == FailurePrefix + e
  {
    match page.render(MainRegion(page.candidates))
    case Converted(md) =>
      var doc := ConvertHtmlToMarkdown(page, url);
      var body := CollapseNewlines(md);
      assert doc == body + (SourcePrefix + url);
      assert doc[..|doc| - |SourcePrefix| - |url|] == body;
      CollapseSpec(md);
    case Failed(e) =>
  }
}
