/** The string utilities of `prescription_data.py`: the image MIME type in
    `load_image`, `get_timing_text`, `clean_medicine_name` and
    `clean_gemini_response`. */
module PrescriptionUtil {
  import opened Wrappers
  import opened Text

  // ---------------------------------------------------------------------
  // load_image: the MIME type of the image file

  /** Index of the last `c` in `s`, if any (`s.rfind(c)`). */
  function LastIndex(s: string, c: char): (r: Option<nat>)
    ensures r.Some? ==> r.value < |s| && s[r.value] == c && forall j :: r.value < j < |s| ==> s[j] != c
    ensures r.None? ==> c !in s
  {
    if s == [] then None
    else if s[|s| - 1] == c then Some(|s| - 1)
    else LastIndex(s[..|s| - 1], c)
  }

  /** `s` is made of nothing but '/' and "." components: what `pathlib`
      drops from a path before taking its name. */
  predicate DotsAndSlashes(s: string)
  {
    forall j :: 0 <= j < |s| ==> SlashOrLoneDot(s, j)
  }

  /** `s[j]` is a '/' or a "." that is a whole component on its own. */
  predicate SlashOrLoneDot(s: string, j: nat)
    requires j < |s|
  {
    s[j] == '/' || (s[j] == '.' && (j == 0 || s[j - 1] == '/') && (j + 1 == |s| || s[j + 1] == '/'))
  }

  /** `s` ends in a component that `pathlib` keeps: neither '/' nor a lone ".". */
  predicate EndsInProperComponent(s: string)
  {
    |s| > 0 && s[|s| - 1] != '/' && !(s[|s| - 1] == '.' && (|s| == 1 || s[|s| - 2] == '/'))
  }

  /** Where the last component `pathlib` keeps ends: trailing '/' and "."
      components are dropped, so "scan.jpg/." ends after "scan.jpg". */
  function NameEnd(path: string): (e: nat)
    ensures e <= |path|
    decreases |path|
  {
    match LastIndex(path, '/')
    case Some(i) =>
      if path[i + 1..] == "" || path[i + 1..] == "." then NameEnd(path[..i]) else |path|
    case None => if path == "." then 0 else |path|
  }

  /** `Path(path).name` for a POSIX path: the last component once the
      trailing '/' and "." components are dropped, empty when none is left. */
  function FileName(path: string): (name: string)
    ensures var p := path[..NameEnd(path)];
      && |name| <= |p| && name == p[|p| - |name|..]
      && ('/' !in p ==> name == p)
      && ('/' in p ==> |name| < |p| && p[|p| - |name| - 1] == '/')
    ensures '/' !in name
  {
    NameOf(path[..NameEnd(path)])
  }

  /** What `NameEnd` cuts off is only '/' and "." components, and what it
      keeps ends in a proper component. */
  lemma {:induction false} NameEndSpec(path: string)
    ensures var e := NameEnd(path);
      && DotsAndSlashes(path[e..])
      && (0 < e < |path| ==> path[e] == '/')
      && (e > 0 ==> EndsInProperComponent(path[..e]))
    decreases |path|
  {
    match LastIndex(path, '/')
    case Some(i) =>
      var tail := path[i + 1..];
      if tail == "" || tail == "." {
        NameEndSpec(path[..i]);
        DroppedComponent(path, i, NameEnd(path[..i]));
      } else {
        assert path[..|path|] == path;
        assert path[|path| - 1] != '/';
        if |tail| == 1 {
          assert tail == [path[|path| - 1]];
        }
      }
    case None =>
      if path != "." && |path| > 0 {
        assert path[..|path|] == path;
        assert path[|path| - 1] != '/';
        if |path| == 1 {
          assert path == [path[0]];
        }
      }
  }

  /** Dropping the component after the '/' at `i` keeps what `NameEnd`
      promises for the path before it. */
  lemma {:induction false} DroppedComponent(path: string, i: nat, e: nat)
    requires i < |path| && path[i] == '/' && (path[i + 1..] == "" || path[i + 1..] == ".")
    requires e <= i && DotsAndSlashes(path[..i][e..])
    requires 0 < e < i ==> path[..i][e] == '/'
    requires e > 0 ==> EndsInProperComponent(path[..i][..e])
    ensures DotsAndSlashes(path[e..])
    ensures 0 < e < |path| ==> path[e] == '/'
    ensures e > 0 ==> EndsInProperComponent(path[..e])
  {
    var tail := path[i + 1..];
    assert path[..i][e..] == path[e..i];
    assert path[e..] == path[e..i] + "/" + tail;
    DotsAndSlashesExtend(path[e..i], tail);
    assert path[..i][..e] == path[..e];
  }

  /** Appending '/' and an empty or "." component keeps a tail of '/' and
      "." components. */
  lemma {:induction false} DotsAndSlashesExtend(s: string, tail: string)
    requires DotsAndSlashes(s)
    requires tail == "" || tail == "."
    ensures DotsAndSlashes(s + "/" + tail)
  {
    var t := s + "/" + tail;
    forall j | 0 <= j < |t|
      ensures SlashOrLoneDot(t, j)
    {
      if j < |s| {
        assert SlashOrLoneDot(s, j);
        assert t[j] == s[j];
        if j > 0 {
          assert t[j - 1] == s[j - 1];
        }
        if j + 1 < |s| {
          assert t[j + 1] == s[j + 1];
        } else {
          assert t[j + 1] == '/';
        }
      } else if j == |s| {
        assert t[j] == '/';
      } else {
        assert j == |s| + 1 == |t| - 1 && tail == ".";
        assert t[j] == '.' && t[j - 1] == '/';
      }
    }
  }

  /** The name is empty exactly when the path is only '/' and "."
      components, and it is never "." itself. */
  lemma {:induction false} FileNameSpec(path: string)
    ensures FileName(path) == "" <==> DotsAndSlashes(path)
    ensures FileName(path) != "."
  {
    NameEndSpec(path);
    NameEndZero(path);
    var p := path[..NameEnd(path)];
    if p != [] {
      assert EndsInProperComponent(p);
      NameOfProperEnd(p);
      assert FileName(path) == NameOf(p);
    }
  }

  /** Nothing is kept exactly when the path is only '/' and "." components. */
  lemma {:induction false} NameEndZero(path: string)
    ensures NameEnd(path) == 0 <==> DotsAndSlashes(path)
  {
    NameEndSpec(path);
    var e := NameEnd(path);
    if e == 0 {
      assert path[e..] == path;
    } else {
      var j := e - 1;
      assert path[..e][j] == path[j];
      assert j > 0 ==> path[..e][j - 1] == path[j - 1];
      assert DotsAndSlashes(path) ==> SlashOrLoneDot(path, j);
    }
  }

  /** The text after the last '/' of `p`, all of `p` when it has none. */
  function NameOf(p: string): (name: string)
    ensures |name| <= |p| && name == p[|p| - |name|..]
    ensures '/' !in name
  {
    match LastIndex(p, '/')
    case Some(i) => p[i + 1..]
    case None => p
  }

  /** The last component of a path ending in a proper component is neither
      empty nor ".". */
  lemma {:induction false} NameOfProperEnd(p: string)
    requires EndsInProperComponent(p)
    ensures NameOf(p) != "" && NameOf(p) != "."
  {
    var name := NameOf(p);
    match LastIndex(p, '/')
    case Some(i) =>
      assert i < |p| - 1;
      assert name[|name| - 1] == p[|p| - 1];
      assert |name| == 1 ==> p[|p| - 2] == '/';
    case None =>
      assert name == p;
  }

  /** A trailing '/' or "/." does not change the name, as in `pathlib`. */
  lemma {:induction false} TrailingComponentsDropped(path: string)
    ensures FileName(path + "/") == FileName(path)
    ensures FileName(path + "/.") == FileName(path)
  {
    var a := path + "/";
    assert a[..|path|] == path;
    assert LastIndex(a, '/') == Some(|path|);
    assert a[|path| + 1..] == "";
    assert NameEnd(a) == NameEnd(path);
    assert a[..NameEnd(a)] == path[..NameEnd(path)];
    var b := path + "/.";
    assert b[..|b| - 1] == a;
    assert LastIndex(b, '/') == Some(|path|);
    assert b[..|path|] == path;
    assert b[|path| + 1..] == ".";
    assert NameEnd(b) == NameEnd(path);
    assert b[..NameEnd(b)] == path[..NameEnd(path)];
  }

  /** The name of a directory, '/' and a proper component is that
      component. */
  lemma {:induction false} FileNameAfterSlash(dir: string, name: string)
    requires '/' !in name && name != "" && name != "."
    ensures FileName(dir + "/" + name) == name
  {
    var path := dir + "/" + name;
    assert path[|dir|] == '/';
    assert forall j :: |dir| < j < |path| ==> path[j] == name[j - |dir| - 1];
    assert LastIndex(path, '/') == Some(|dir|);
    assert path[|dir| + 1..] == name;
    assert NameEnd(path) == |path|;
    assert path[..|path|] == path;
  }

  /** A name with a trailing '/', or with a trailing "/." after a directory,
      keeps its extension: "scan.jpg/" is sent as JPEG. */
  lemma {:induction false} TrailingSlashExample(n: string)
    requires n == "scan.jpg"
    ensures FileName(n + "/") == n
    ensures FileName("x" + "/" + n + "/.") == n
    ensures MimeType(FileName(n + "/")) == "image/jpeg"
  {
    PlainName(n);
    SlashDotAfterName("x", n);
    JpgExample();
  }

  /** A path without '/' other than "" and "." is its own name, with or
      without a trailing '/'. */
  lemma {:induction false} PlainName(n: string)
    requires '/' !in n && n != "" && n != "."
    ensures FileName(n) == n
    ensures FileName(n + "/") == n
  {
    assert NameEnd(n) == |n| && n[..|n|] == n;
    TrailingComponentsDropped(n);
  }

  /** A trailing "/." after a directory and a proper component leaves that
      component as the name. */
  lemma {:induction false} SlashDotAfterName(dir: string, n: string)
    requires '/' !in n && n != "" && n != "."
    ensures FileName(dir + "/" + n + "/.") == n
  {
    FileNameAfterSlash(dir, n);
    TrailingComponentsDropped(dir + "/" + n);
  }

  /** A ".jpg" name is sent as JPEG. */
  lemma JpgExample()
    ensures MimeType("scan.jpg") == "image/jpeg"
  {
    var n := "scan.jpg";
    assert n[..7] == "scan.jp" && n[..7][..6] == "scan.j" && n[..7][..6][..5] == "scan.";
    assert LastIndex(n[..7][..6][..5], '.') == Some(4);
    assert LastIndex(n, '.') == Some(4);
    assert n[5..] == "jpg";
    assert Extension(n) == "jpg";
  }

  /** `Path(name).suffix.lstrip('.')` for a file name: the text after the last
      dot, provided that dot is neither the first nor the last character. */
  function Extension(name: string): (e: string)
    ensures forall j :: 0 <= j < |e| ==> e[j] != '.'
    ensures |e| > 0 <==> LastIndex(name, '.').Some? && 0 < LastIndex(name, '.').value < |name| - 1
    ensures |e| > 0 ==> e == name[LastIndex(name, '.').value + 1..]
  {
    match LastIndex(name, '.')
    case Some(i) => if 0 < i < |name| - 1 then name[i + 1..] else ""
    case None => ""
  }

  /** The image subtype for a lower-cased extension, PNG when unknown. */
  function Subtype(ext: string): (t: string)
    ensures t == "jpeg" || t == "png" || t == "webp"
    ensures t == "jpeg" <==> ext == "jpg" || ext == "jpeg"
    ensures t == "webp" <==> ext == "webp"
  {
    if ext == "jpg" || ext == "jpeg" then "jpeg" else if ext == "webp" then "webp" else "png"
  }

  /** The MIME type sent with the image: the lower-cased extension looked up
      in the map, defaulting to PNG. */
  function MimeType(name: string): (m: string)
    ensures m == "image/jpeg" || m == "image/png" || m == "image/webp"
  {
    "image/" + Subtype(Lower(Extension(name)))
  }

  /** Lower-casing keeps every character that is not a letter where it is. */
  lemma {:induction false} LastIndexLower(s: string, c: char)
    requires !IsLetter(c)
    ensures LastIndex(Lower(s), c) == LastIndex(s, c)
  {
    if s != [] {
      LowerSlice(s, 0, |s| - 1);
      assert s[0..|s| - 1] == s[..|s| - 1];
      assert Lower(s)[0..|s| - 1] == Lower(s)[..|s| - 1];
      LastIndexLower(s[..|s| - 1], c);
    }
  }

  /** The extension of the lower-cased name is the lower-cased extension. */
  lemma ExtensionLower(name: string)
    ensures Extension(Lower(name)) == Lower(Extension(name))
  {
    LastIndexLower(name, '.');
    match LastIndex(name, '.')
    case Some(i) =>
      if 0 < i < |name| - 1 {
        LowerSuffix(name, i + 1);
      }
    case None =>
  }

  /** The MIME type does not depend on the case of the file name. */
  lemma MimeTypeIgnoresCase(name: string)
    ensures MimeType(Lower(name)) == MimeType(name)
  {
    ExtensionLower(name);
    LowerIdempotent(Extension(name));
  }

  /** An upper-case extension is recognised. */
  lemma UpperExtensionExample()
    ensures MimeType("scan.JPG") == "image/jpeg"
  {
    assert LastIndex("scan.JPG", '.') == Some(4);
    assert Extension("scan.JPG") == "JPG";
    assert Lower("JPG") == "jpg";
  }

  /** A name whose only dot is its first character has no extension. */
  lemma HiddenFileExample()
    ensures MimeType(".webp") == "image/png"
  {
    assert LastIndex(".webp", '.') == Some(0);
    assert Lower("") == "";
  }

  /** A name ending in a dot has no extension either. */
  lemma TrailingDotExample()
    ensures MimeType("scan.webp.") == "image/png"
  {
    assert LastIndex("scan.webp.", '.') == Some(9);
    assert Lower("") == "";
  }

  // ---------------------------------------------------------------------
  // get_timing_text

  /** The doses of a timing code like "1-0-1": a slot is present only when
      its dose is not "0" or "0/0". */
  datatype Schedule = Schedule(morning: Option<string>, afternoon: Option<string>, night: Option<string>)

  const NoSchedule: Schedule := Schedule(None, None, None)

  /** The dose recorded for one part of the code. */
  function Dose(part: string): (d: Option<string>)
    ensures d.Some? <==> part != "0" && part != "0/0"
    ensures d.Some? ==> d.value == part
  {
    if part == "0" || part == "0/0" then None else Some(part)
  }

  /** `get_timing_text` on a string. */
  function TimingSchedule(timing: string): Schedule {
    if timing == [] then NoSchedule
    else
      var parts := Split(timing, '-');
      if |parts| != 3 then NoSchedule
      else Schedule(Dose(parts[0]), Dose(parts[1]), Dose(parts[2]))
  }

  /** `get_timing_text`, building the schedule slot by slot. */
  method GetTimingText(timing: string) returns (schedule: Schedule)
    ensures schedule == TimingSchedule(timing)
  {
    schedule := NoSchedule;
    if timing == [] {
      return;
    }
    var parts := Split(timing, '-');
    if |parts| != 3 {
      return;
    }
    if parts[0] != "0" && parts[0] != "0/0" {
      schedule := schedule.(morning := Some(parts[0]));
    }
    if parts[1] != "0" && parts[1] != "0/0" {
      schedule := schedule.(afternoon := Some(parts[1]));
    }
    if parts[2] != "0" && parts[2] != "0/0" {
      schedule := schedule.(night := Some(parts[2]));
    }
  }

  /** A code with other than exactly two '-' gives no doses; a code with two
      is the three parts joined by '-', each present slot holds its part
      verbatim, and a slot is absent exactly when its part is "0" or "0/0". */
  lemma TimingSpec(timing: string)
    ensures Count(timing, '-') != 2 ==> TimingSchedule(timing) == NoSchedule
    ensures Count(timing, '-') == 2 ==>
      var parts := Split(timing, '-');
      && timing == parts[0] + "-" + parts[1] + "-" + parts[2]
      && '-' !in parts[0] && '-' !in parts[1] && '-' !in parts[2]
      && TimingSchedule(timing) == Schedule(Dose(parts[0]), Dose(parts[1]), Dose(parts[2]))
  {
    if Count(timing, '-') == 2 {
      JoinSplit(timing, '-');
      JoinThree(Split(timing, '-'));
    }
  }

  /** Three parts joined by '-'. */
  lemma JoinThree(parts: seq<string>)
    requires |parts| == 3
    ensures Join(parts, "-") == parts[0] + "-" + parts[1] + "-" + parts[2]
  {
    assert Join(parts, "-") == parts[0] + "-" + Join(parts[1..], "-");
    assert Join(parts[1..], "-") == parts[1] + "-" + Join(parts[2..], "-");
    assert parts[2..] == [parts[2]];
  }

  /** Three separator-free parts joined by '-' split back into those parts. */
  lemma SplitThree(a: string, b: string, c: string)
    requires '-' !in a && '-' !in b && '-' !in c
    ensures Split(a + "-" + b + "-" + c, '-') == [a, b, c]
  {
    var bc := b + ['-'] + c;
    SplitWithout(c, '-');
    SplitAfter(b, '-', c);
    SplitAfter(a, '-', bc);
    JoinedThree(a, b, c, '-');
  }

  /** `a`, `b` and `c` with `x` between them, regrouped from the right. */
  lemma JoinedThree(a: string, b: string, c: string, x: char)
    ensures a + [x] + b + [x] + c == a + [x] + (b + [x] + c)
  {
    assert (a + [x] + b) + [x] + c == (a + [x]) + (b + [x]) + c;
  }

  /** Schedules for the codes written on prescriptions. */
  lemma TimingExamples()
    ensures TimingSchedule("0-1/2-0") == Schedule(None, Some("1/2"), None)
    ensures TimingSchedule("1-0-1") == Schedule(Some("1"), None, Some("1"))
    ensures TimingSchedule("1-1") == NoSchedule
  {
    SplitThree("0", "1/2", "0");
    assert "0" + "-" + "1/2" + "-" + "0" == "0-1/2-0";
    SplitThree("1", "0", "1");
    assert "1" + "-" + "0" + "-" + "1" == "1-0-1";
    SplitAfter("1", '-', "1");
    SplitWithout("1", '-');
    assert "1" + "-" + "1" == "1-1";
  }

  // ---------------------------------------------------------------------
  // clean_medicine_name

  /** Formulation words dropped from the front of a name, in the order tried. */
  const Prefixes: seq<string> := [
    "tab", "tabs", "tablet", "tablets", "cap", "caps", "capsule", "capsules",
    "inj", "injection", "syp", "syrup", "susp", "suspension", "oint", "ointment",
    "cream", "lotion", "gel", "drop", "drops", "spray", "powder", "sachet", "t"
  ]

  /** Length of the match of `^p\.?\s+` in `s` (0 when none). The optional dot
      is taken when whitespace follows it; otherwise the whitespace must follow
      `p` directly. The whitespace run is taken whole. */
  function PrefixLength(s: string, p: string): (n: nat)
    ensures n <= |s|
    ensures n > 0 ==> StartsWith(s, p) && |p| < n && IsSpace(s[n - 1]) && (n == |s| || !IsSpace(s[n]))
    ensures n > 0 ==> forall j :: |p| <= j < n ==> IsSpace(s[j]) || (j == |p| && s[j] == '.')
    ensures n == 0 <==> !(StartsWith(s, p) && |p| < |s| && (IsSpace(s[|p|]) || (s[|p|] == '.' && |p| + 1 < |s| && IsSpace(s[|p| + 1]))))
  {
    if !StartsWith(s, p) then 0
    else if |p| < |s| && s[|p|] == '.' && SpaceRun(s, |p| + 1) > 0 then |p| + 1 + SpaceRun(s, |p| + 1)
    else if SpaceRun(s, |p|) > 0 then |p| + SpaceRun(s, |p|)
    else 0
  }

  /** The prefixes `clean_medicine_name` tries. */
  function PrefixList(): seq<string> {
    Prefixes
  }

  /** The name after trying each of `ps` once, in order. */
  function DropAll(s: string, ps: seq<string>): string
    decreases |ps|
  {
    if ps == [] then s
    else
      var t := DropAll(s, ps[..|ps| - 1]);
      t[PrefixLength(t, ps[|ps| - 1])..]
  }

  /** Dropping prefixes leaves a tail of the name. */
  lemma {:induction false} DropAllTail(s: string, ps: seq<string>)
    decreases |ps|
    ensures var r := DropAll(s, ps); |r| <= |s| && r == s[|s| - |r|..]
  {
    if ps != [] {
      DropAllTail(s, ps[..|ps| - 1]);
    }
  }

  /** The start of `s` at `i` is a word boundary before a word character. */
  predicate WordStart(s: string, i: nat) {
    i < |s| && IsWordChar(s[i]) && (i == 0 || !IsWordChar(s[i - 1]))
  }

  /** Position `i` is the end of a word (end of text or a non-word character). */
  predicate WordEnd(s: string, i: nat) {
    i == |s| || (i < |s| && !IsWordChar(s[i]))
  }

  /** Length of the unit at `j`: "mg", "ml", "mcg" or "g" (0 when none). At
      most one of the four can start at a given position. */
  function UnitLength(s: string, j: nat): (u: nat)
    ensures j + u <= |s| || u == 0
  {
    if j + 2 <= |s| && s[j] == 'm' && (s[j + 1] == 'g' || s[j + 1] == 'l') then 2
    else if j + 3 <= |s| && s[j] == 'm' && s[j + 1] == 'c' && s[j + 2] == 'g' then 3
    else if j < |s| && s[j] == 'g' then 1
    else 0
  }

  /** Length of the match of `\b\d+\s*(?:mg|ml|mcg|g)\b` at `i` (0 when none).
      Only the longest digit and whitespace runs can lead to a match, since a
      shorter run is followed by a digit or a space, which no unit starts with. */
  function StrengthLength(s: string, i: nat): (n: nat)
    requires i <= |s|
    ensures i + n <= |s|
  {
    if !WordStart(s, i) then 0
    else
      var d := DigitRun(s, i);
      if d == 0 then 0
      else
        var j := i + d + SpaceRun(s, i + d);
        var u := UnitLength(s, j);
        if u > 0 && WordEnd(s, j + u) then j + u - i else 0
  }

  /** `re.sub(r'\b\d+\s*(?:mg|ml|mcg|g)\b', '', s)` scanning from `i`. */
  function RemoveStrengthsFrom(s: string, i: nat): (r: string)
    requires i <= |s|
    decreases |s| - i
  {
    if i == |s| then []
    else
      var n := StrengthLength(s, i);
      if n > 0 then RemoveStrengthsFrom(s, i + n) else [s[i]] + RemoveStrengthsFrom(s, i + 1)
  }

  /** Length of the match of `\b\d+\b` at `i` (0 when none). */
  function NumberLength(s: string, i: nat): (n: nat)
    requires i <= |s|
    ensures i + n <= |s|
  {
    var d := DigitRun(s, i);
    if d > 0 && WordStart(s, i) && WordEnd(s, i + d) then d else 0
  }

  /** `re.sub(r'\b\d+\b', '', s)` scanning from `i`. */
  function RemoveNumbersFrom(s: string, i: nat): (r: string)
    requires i <= |s|
    decreases |s| - i
  {
    if i == |s| then []
    else
      var n := NumberLength(s, i);
      if n > 0 then RemoveNumbersFrom(s, i + n) else [s[i]] + RemoveNumbersFrom(s, i + 1)
  }

  /** A number standing as a word of its own is deleted: `d` digits from a
      word start up to a word end. */
  lemma {:induction false} NumberDropped(s: string, i: nat, d: nat)
    requires 0 < d && i + d <= |s| && WordStart(s, i) && WordEnd(s, i + d)
    requires forall j :: i <= j < i + d ==> IsDigit(s[j])
    ensures RemoveNumbersFrom(s, i) == RemoveNumbersFrom(s, i + d)
  {
    assert NumberLength(s, i) == d by {
      DigitRunTo(s, i, i + d);
    }
  }

  /** A digit run that runs into a letter or underscore is not a number: its
      first digit is kept. */
  lemma {:induction false} NumberInWordKept(s: string, i: nat)
    requires i < |s| && WordStart(s, i) && IsDigit(s[i]) && !WordEnd(s, i + DigitRun(s, i))
    ensures RemoveNumbersFrom(s, i) == [s[i]] + RemoveNumbersFrom(s, i + 1)
  {
  }

  /** A character inside a word (one preceded by a word character) is never
      the start of a deleted number or strength. */
  lemma {:induction false} InsideWordKept(s: string, i: nat)
    requires 0 < i < |s| && IsWordChar(s[i - 1])
    ensures RemoveNumbersFrom(s, i) == [s[i]] + RemoveNumbersFrom(s, i + 1)
    ensures RemoveStrengthsFrom(s, i) == [s[i]] + RemoveStrengthsFrom(s, i + 1)
  {
  }

  /** One of the four units the strength pattern names. */
  predicate IsUnit(u: string) {
    u == "mg" || u == "ml" || u == "mcg" || u == "g"
  }

  /** A strength stands at `i`: `d` digits from a word start, `w` whitespace
      characters, then the unit `u` ("mg", "ml", "mcg" or "g") ending at a
      word end. */
  predicate IsStrength(s: string, i: nat, d: nat, w: nat, u: string) {
    && IsUnit(u)
    && 0 < d && WordStart(s, i) && OccursAt(s, u, i + d + w)
    && (forall j :: i <= j < i + d ==> IsDigit(s[j]))
    && (forall j :: i + d <= j < i + d + w ==> IsSpace(s[j]))
    && WordEnd(s, i + d + w + |u|)
  }

  /** A strength is deleted with the whitespace inside it. */
  lemma {:induction false} StrengthDropped(s: string, i: nat, d: nat, w: nat, u: string)
    requires IsStrength(s, i, d, w, u)
    ensures RemoveStrengthsFrom(s, i) == RemoveStrengthsFrom(s, i + d + w + |u|)
  {
    StrengthAt(s, i, d, w, u);
  }

  /** Where no strength stands, the character is copied: a digit run at a
      word start that is not followed by a unit ending a word ("5x", "3tc")
      stays. */
  lemma {:induction false} NonStrengthKept(s: string, i: nat)
    requires i < |s| && forall d: nat, w: nat, u: string :: !IsStrength(s, i, d, w, u)
    ensures RemoveStrengthsFrom(s, i) == [s[i]] + RemoveStrengthsFrom(s, i + 1)
  {
    var d := DigitRun(s, i);
    var k := i + d;
    var w := SpaceRun(s, k);
    var j := k + w;
    StrengthWitness(s, i, d, k, w, j, UnitLength(s, j));
  }

  /** A match found at `i` is a strength made of the digit run `d` up to `k`,
      the whitespace run `w` up to `j` and the unit of length `n` after that. */
  lemma {:induction false} StrengthWitness(s: string, i: nat, d: nat, k: nat, w: nat, j: nat, n: nat)
    requires i < |s| && d == DigitRun(s, i) && k == i + d && w == SpaceRun(s, k) && j == k + w
    requires n == UnitLength(s, j)
    ensures StrengthLength(s, i) > 0 ==> j + n <= |s| && IsStrength(s, i, d, w, s[j..j + n])
  {
    if StrengthLength(s, i) > 0 {
      StrengthFound(s, i, d, k, w, j, n);
      UnitOf(s, j, n);
      StrengthOfParts(s, i, d, k, w, j, n, s[j..j + n]);
    }
  }

  /** What a match found at `i` says about its parts. */
  lemma StrengthFound(s: string, i: nat, d: nat, k: nat, w: nat, j: nat, n: nat)
    requires i < |s| && d == DigitRun(s, i) && k == i + d && w == SpaceRun(s, k) && j == k + w
    requires n == UnitLength(s, j) && StrengthLength(s, i) > 0
    ensures WordStart(s, i) && 0 < d && 0 < n && j + n <= |s| && WordEnd(s, j + n)
  {
  }

  /** A digit run from a word start up to `k`, the whitespace run from `k` to
      `j` and a unit at `j` ending a word make a strength. */
  lemma {:induction false} StrengthOfParts(s: string, i: nat, d: nat, k: nat, w: nat, j: nat, n: nat, u: string)
    requires i <= |s| && k == i + d && j == k + w && j + n <= |s|
    requires (forall m :: i <= m < k ==> IsDigit(s[m])) && (forall m :: k <= m < j ==> IsSpace(s[m]))
    requires 0 < d && WordStart(s, i) && WordEnd(s, j + n)
    requires u == s[j..j + n] && IsUnit(u)
    ensures IsStrength(s, i, d, w, u)
  {
    assert |u| == n;
    assert OccursAt(s, u, j);
  }

  /** The text a unit match covers is one of the four units. */
  lemma {:induction false} UnitOf(s: string, j: nat, n: nat)
    requires n == UnitLength(s, j) > 0
    ensures IsUnit(s[j..j + n])
  {
    var u := s[j..j + n];
    if n == 2 {
      assert u == [s[j], s[j + 1]];
    } else if n == 3 {
      assert u == [s[j], s[j + 1], s[j + 2]];
    } else {
      assert u == [s[j]];
    }
  }

  /** The strength match at `i` runs to the end of the unit. */
  lemma {:induction false} StrengthAt(s: string, i: nat, d: nat, w: nat, u: string)
    requires IsStrength(s, i, d, w, u)
    ensures StrengthLength(s, i) == d + w + |u|
  {
    var k := i + d;
    var j := k + w;
    var n := |u|;
    UnitAt(s, j, u);
    assert !IsDigit(s[k]) by {
      if w > 0 {
        assert IsSpace(s[k]);
      }
    }
    DigitRunTo(s, i, k);
    SpaceRunTo(s, k, j);
    StrengthLengthOf(s, i, d, k, w, j, n);
  }

  /** The match length, given the digit run up to `k`, the whitespace run up
      to `j` and a unit that ends a word. */
  lemma {:induction false} StrengthLengthOf(s: string, i: nat, d: nat, k: nat, w: nat, j: nat, n: nat)
    requires i < |s| && WordStart(s, i) && 0 < d && k == i + d && j == k + w && j <= |s|
    requires DigitRun(s, i) == d && SpaceRun(s, k) == w
    requires UnitLength(s, j) == n && 0 < n && WordEnd(s, j + n)
    ensures StrengthLength(s, i) == d + w + n
  {
  }

  /** Each of the four units is recognised whole where it occurs. */
  lemma {:induction false} UnitAt(s: string, j: nat, u: string)
    requires IsUnit(u)
    requires OccursAt(s, u, j)
    ensures UnitLength(s, j) == |u| && j < |s| && !IsSpace(s[j]) && !IsDigit(s[j])
  {
    assert s[j..j + |u|] == u;
    assert s[j] == s[j..j + |u|][0];
    if |u| > 1 {
      assert s[j + 1] == s[j..j + |u|][1];
    }
    if |u| > 2 {
      assert s[j + 2] == s[j..j + |u|][2];
    }
  }

  /** Whitespace is single spaces, never two in a row. */
  predicate SingleSpaced(s: string) {
    && (forall j :: 0 <= j < |s| && IsSpace(s[j]) ==> s[j] == ' ')
    && (forall j :: 0 <= j < |s| - 1 ==> !SpacePair(s, j))
  }

  /** Whitespace at `j` and at `j + 1`. */
  predicate SpacePair(s: string, j: nat)
    requires j + 1 < |s|
  {
    IsSpace(s[j]) && IsSpace(s[j + 1])
  }

  /** `re.sub(r'\s+', ' ', s)` scanning from `i`. */
  function CollapseSpacesFrom(s: string, i: nat): (r: string)
    requires i <= |s|
    decreases |s| - i
    ensures SingleSpaced(r)
    ensures i < |s| && !IsSpace(s[i]) ==> |r| > 0 && r[0] == s[i]
    ensures i == |s| ==> r == []
  {
    if i == |s| then []
    else
      var n := SpaceRun(s, i);
      if n > 0 then
        var rest := CollapseSpacesFrom(s, i + n);
        CharBeforeSingleSpaced(' ', rest);
        [' '] + rest
      else
        var rest := CollapseSpacesFrom(s, i + 1);
        CharBeforeSingleSpaced(s[i], rest);
        [s[i]] + rest
  }

  /** The whitespace collapse introduces no character other than a space. */
  lemma {:induction false} CollapseSpacesChars(s: string, i: nat)
    requires i <= |s|
    decreases |s| - i
    ensures forall c :: c in CollapseSpacesFrom(s, i) ==> c in s || c == ' '
  {
    if i < |s| {
      var n := SpaceRun(s, i);
      if n > 0 {
        CollapseRunUnfold(s, i);
        CollapseSpacesChars(s, i + n);
      } else {
        CollapseCharStep(s, i, i + 1);
        CollapseSpacesChars(s, i + 1);
      }
    }
  }

  /** The part of the name the prefixes are tried on: lower-cased, cut at the
      first '-' and trimmed. */
  function NameHead(raw: string): (h: string)
    ensures Folded(h)
  {
    var cut := Before(Lower(raw), "-");
    ContainsChar(cut, '-');
    assert forall j :: 0 <= j < |cut| ==> !IsUpper(cut[j]) && cut[j] != '-';
    Strip(cut)
  }

  /** What follows the prefixes: strengths and bare numbers removed, whitespace
      collapsed, ends trimmed. */
  function Tidy(s: string): string {
    Strip(CollapseSpacesFrom(RemoveNumbersFrom(RemoveStrengthsFrom(s, 0), 0), 0))
  }

  /** `clean_medicine_name` */
  function MedicineName(raw: string): string {
    Tidy(DropAll(NameHead(raw), PrefixList()))
  }

  /** The prefix loop of `clean_medicine_name`: each of `prefixes` is
      tried once, in order. */
  method DropPrefixes(head: string, prefixes: seq<string>) returns (info: string)
    ensures info == DropAll(head, prefixes)
  {
    info := head;
    for k := 0 to |prefixes|
      invariant info == DropAll(head, prefixes[..k])
    {
      assert prefixes[..k + 1][..k] == prefixes[..k];
      info := info[PrefixLength(info, prefixes[k])..];
    }
    assert prefixes[..|prefixes|] == prefixes;
  }

  /** `clean_medicine_name` */
  method CleanMedicineName(raw: string) returns (name: string)
    ensures name == MedicineName(raw)
  {
    var info := DropPrefixes(NameHead(raw), PrefixList());
    name := Tidy(info);
  }

  /** The strength removal only drops characters. */
  lemma {:induction false} StrengthsKeepChars(s: string, i: nat)
    requires i <= |s|
    decreases |s| - i
    ensures forall c :: c in RemoveStrengthsFrom(s, i) ==> c in s
  {
    if i < |s| {
      var n := StrengthLength(s, i);
      if n > 0 {
        StrengthsKeepChars(s, i + n);
      } else {
        StrengthsKeepChars(s, i + 1);
      }
    }
  }

  /** The number removal only drops characters. */
  lemma {:induction false} NumbersKeepChars(s: string, i: nat)
    requires i <= |s|
    decreases |s| - i
    ensures forall c :: c in RemoveNumbersFrom(s, i) ==> c in s
  {
    if i < |s| {
      var n := NumberLength(s, i);
      if n > 0 {
        NumbersKeepChars(s, i + n);
      } else {
        NumbersKeepChars(s, i + 1);
      }
    }
  }

  /** A character other than whitespace, or a space before text that does not
      start with whitespace, keeps single-spaced text single-spaced. */
  lemma CharBeforeSingleSpaced(c: char, r: string)
    requires SingleSpaced(r)
    requires !IsSpace(c) || (c == ' ' && (r == [] || !IsSpace(r[0])))
    ensures SingleSpaced([c] + r)
  {
    var t := [c] + r;
    forall j | 0 <= j < |t| - 1
      ensures !SpacePair(t, j)
    {
      if j > 0 {
        assert t[j] == r[j - 1] && t[j + 1] == r[j];
        assert !SpacePair(r, j - 1);
      }
    }
  }

  /** A slice of single-spaced text is single-spaced. */
  lemma {:induction false} SingleSpacedSlice(s: string, a: nat, b: nat, t: string)
    requires SingleSpaced(s) && a <= b <= |s| && t == s[a..b]
    ensures SingleSpaced(t)
  {
    forall j | 0 <= j < |t| - 1
      ensures !SpacePair(t, j)
    {
      assert t[j] == s[a + j] && t[j + 1] == s[a + j + 1];
      assert !SpacePair(s, a + j);
    }
  }

  /** Tidied text has no whitespace at either end, its whitespace is single
      spaces, and every other character comes from the input. */
  lemma {:induction false} TidySpec(s: string)
    ensures var t := Tidy(s);
      && (forall c :: c in t ==> c in s || c == ' ')
      && (t != [] ==> !IsSpace(t[0]) && !IsSpace(t[|t| - 1]))
      && SingleSpaced(t)
  {
    TidyChars(s);
    var collapsed := CollapseSpacesFrom(RemoveNumbersFrom(RemoveStrengthsFrom(s, 0), 0), 0);
    assert Tidy(s) == Strip(collapsed);
    StripSingleSpaced(collapsed);
  }

  /** Stripping single-spaced text leaves it single-spaced. */
  lemma {:induction false} StripSingleSpaced(c: string)
    requires SingleSpaced(c)
    ensures SingleSpaced(Strip(c))
  {
    StripSlice(c);
    var t := Strip(c);
    var a := |c| - |LStrip(c)|;
    var b := a + |t|;
    SingleSpacedSlice(c, a, b, t);
  }

  /** Tidying introduces no character other than a space. */
  lemma {:induction false} TidyChars(s: string)
    ensures forall c :: c in Tidy(s) ==> c in s || c == ' '
  {
    var stripped := RemoveStrengthsFrom(s, 0);
    StrengthsKeepChars(s, 0);
    NumbersKeepChars(stripped, 0);
    var numbered := RemoveNumbersFrom(stripped, 0);
    CollapseSpacesChars(numbered, 0);
    var collapsed := CollapseSpacesFrom(numbered, 0);
    forall c | c in Tidy(s)
      ensures c in s || c == ' '
    {
      StripChars(collapsed, c);
    }
  }

  /** No upper-case letter and no '-'. */
  predicate Folded(s: string) {
    forall j :: 0 <= j < |s| ==> !IsUpper(s[j]) && s[j] != '-'
  }

  /** The prefixes come off the front: what is left is a tail of the head,
      so it keeps every property the head's characters have. */
  lemma {:induction false} NamedFolded(head: string, ps: seq<string>)
    requires Folded(head)
    decreases |ps|
    ensures Folded(DropAll(head, ps))
  {
    if ps != [] {
      NamedFolded(head, ps[..|ps| - 1]);
      var t := DropAll(head, ps[..|ps| - 1]);
      FoldedTail(t, PrefixLength(t, ps[|ps| - 1]));
    }
  }

  /** A tail of folded text is folded. */
  lemma FoldedTail(s: string, k: nat)
    requires Folded(s) && k <= |s|
    ensures Folded(s[k..])
  {
    forall j | 0 <= j < |s| - k
      ensures !IsUpper(s[k..][j]) && s[k..][j] != '-'
    {
      assert s[k..][j] == s[k + j];
    }
  }

  /** Tidying adds no character but the space. */
  lemma TidyFolded(s: string)
    requires Folded(s)
    ensures Folded(Tidy(s))
  {
    var t := Tidy(s);
    TidySpec(s);
    forall j | 0 <= j < |t|
      ensures !IsUpper(t[j]) && t[j] != '-'
    {
      assert t[j] in t;
    }
  }

  /** A cleaned name is lower-case and holds no '-'. */
  lemma MedicineNameFolded(raw: string)
    ensures Folded(MedicineName(raw))
  {
    var head := NameHead(raw);
    NamedFolded(head, PrefixList());
    TidyFolded(DropAll(head, PrefixList()));
  }

  /** A cleaned name has no whitespace at either end, and its whitespace is
      single spaces. */
  lemma MedicineNameSpaced(raw: string)
    ensures var name := MedicineName(raw);
      && (name != [] ==> !IsSpace(name[0]) && !IsSpace(name[|name| - 1]))
      && SingleSpaced(name)
  {
    TidySpec(DropAll(NameHead(raw), PrefixList()));
  }

  /** A cleaned name as it can be stored: non-empty, folded, trimmed and
      single-spaced. */
  predicate CleanName(k: string) {
    && k != []
    && Folded(k)
    && !IsSpace(k[0]) && !IsSpace(k[|k| - 1])
    && SingleSpaced(k)
  }

  /** Every non-empty result of the cleaning is a clean name. */
  lemma MedicineNameClean(raw: string)
    ensures MedicineName(raw) != [] ==> CleanName(MedicineName(raw))
  {
    MedicineNameFolded(raw);
    MedicineNameSpaced(raw);
  }

  /** When none of `qs` matches what trying `ps` left, trying them too
      changes nothing. */
  lemma {:induction false} NoPrefixAfter(s: string, ps: seq<string>, qs: seq<string>)
    requires forall j :: 0 <= j < |qs| ==> PrefixLength(DropAll(s, ps), qs[j]) == 0
    decreases |qs|
    ensures DropAll(s, ps + qs) == DropAll(s, ps)
  {
    if qs != [] {
      var init := qs[..|qs| - 1];
      assert (ps + qs)[..|ps + qs| - 1] == ps + init;
      NoPrefixAfter(s, ps, init);
      var t := DropAll(s, ps + init);
      assert t[PrefixLength(t, qs[|qs| - 1])..] == t;
    } else {
      assert ps + qs == ps;
    }
  }

  /** A digit-free stretch `s[i..k]` is copied by the strength removal. */
  lemma {:induction false} DigitFreeStrengths(s: string, i: nat, k: nat)
    requires i <= k <= |s| && forall j :: i <= j < k ==> !IsDigit(s[j])
    decreases k - i
    ensures RemoveStrengthsFrom(s, i) == s[i..k] + RemoveStrengthsFrom(s, k)
  {
    if i < k {
      StrengthCharKept(s, i);
      DigitFreeStrengths(s, i + 1, k);
      Regroup(s, i, k, RemoveStrengthsFrom(s, i), RemoveStrengthsFrom(s, i + 1), RemoveStrengthsFrom(s, k));
    }
  }

  /** A character other than a digit starts no strength and is copied. */
  lemma StrengthCharKept(s: string, i: nat)
    requires i < |s| && !IsDigit(s[i])
    ensures RemoveStrengthsFrom(s, i) == [s[i]] + RemoveStrengthsFrom(s, i + 1)
  {
    assert DigitRun(s, i) == 0;
    assert StrengthLength(s, i) == 0;
  }

  /** A digit-free stretch `s[i..k]` is copied by the number removal. */
  lemma {:induction false} DigitFreeNumbers(s: string, i: nat, k: nat)
    requires i <= k <= |s| && forall j :: i <= j < k ==> !IsDigit(s[j])
    decreases k - i
    ensures RemoveNumbersFrom(s, i) == s[i..k] + RemoveNumbersFrom(s, k)
  {
    if i < k {
      NumberCharKept(s, i);
      DigitFreeNumbers(s, i + 1, k);
      Regroup(s, i, k, RemoveNumbersFrom(s, i), RemoveNumbersFrom(s, i + 1), RemoveNumbersFrom(s, k));
    }
  }

  /** A character other than a digit starts no number and is copied. */
  lemma NumberCharKept(s: string, i: nat)
    requires i < |s| && !IsDigit(s[i])
    ensures RemoveNumbersFrom(s, i) == [s[i]] + RemoveNumbersFrom(s, i + 1)
  {
    assert DigitRun(s, i) == 0;
  }

  /** A run made only of whitespace collapses to one space. */
  lemma {:induction false} CollapseSpacesRun(t: string)
    requires |t| > 0 && forall j :: 0 <= j < |t| ==> IsSpace(t[j])
    ensures CollapseSpacesFrom(t, 0) == " "
  {
    SpaceRunTo(t, 0, |t|);
  }

  /** The whitespace run at `i` depends only on the text from `i` on. */
  lemma {:induction false} SuffixSpaceRun(t: string, i: nat, s: string, j: nat)
    requires i <= |t| && j <= |s| && Tail(t, i) == Tail(s, j)
    decreases |s| - j
    ensures SpaceRun(t, i) == SpaceRun(s, j)
  {
    if j < |s| {
      TailStep(t, i, s, j);
      if IsSpace(s[j]) {
        SuffixSpaceRun(t, i + 1, s, j + 1);
      }
    } else {
      assert i == |t|;
    }
  }

  /** How many characters the whitespace collapse reads at `i`: a whole
      run, or one character. */
  function SpaceStep(s: string, i: nat): (k: nat)
    requires i < |s|
    ensures 0 < k && i + k <= |s|
  {
    var n := SpaceRun(s, i);
    if n > 0 then n else 1
  }

  /** What the whitespace collapse writes for what it reads at `i`. */
  function SpacePiece(s: string, i: nat): string
    requires i < |s|
  {
    if SpaceRun(s, i) > 0 then " " else [s[i]]
  }

  /** One step of the whitespace collapse. */
  lemma {:induction false} SpaceCollapseUnfold(s: string, i: nat, i2: nat)
    requires i < |s| && i2 == i + SpaceStep(s, i)
    ensures CollapseSpacesFrom(s, i) == SpacePiece(s, i) + CollapseSpacesFrom(s, i2)
  {
    if SpaceRun(s, i) > 0 {
      CollapseRunStep(s, i, i2);
    } else {
      CollapseCharStep(s, i, i2);
    }
  }

  /** A whitespace run at `i` becomes one space. */
  lemma CollapseRunStep(s: string, i: nat, i2: nat)
    requires i < |s| && SpaceRun(s, i) > 0 && i2 == i + SpaceRun(s, i)
    ensures CollapseSpacesFrom(s, i) == " " + CollapseSpacesFrom(s, i2)
  {
    CollapseRunUnfold(s, i);
  }

  lemma CollapseRunUnfold(s: string, i: nat)
    requires i < |s| && SpaceRun(s, i) > 0
    ensures CollapseSpacesFrom(s, i) == " " + CollapseSpacesFrom(s, i + SpaceRun(s, i))
  {
  }

  /** Any other character at `i` is copied. */
  lemma CollapseCharStep(s: string, i: nat, i2: nat)
    requires i < |s| && SpaceRun(s, i) == 0 && i2 == i + 1
    ensures CollapseSpacesFrom(s, i) == [s[i]] + CollapseSpacesFrom(s, i2)
  {
  }

  /** Two texts whose steps at `i` and `j` agree, and whose rests collapse
      alike, collapse alike from `i` and `j`. */
  lemma {:induction false} SameSpaceStep(t: string, i: nat, i2: nat, s: string, j: nat, j2: nat)
    requires i < |t| && j < |s| && t[i] == s[j] && SpaceRun(t, i) == SpaceRun(s, j)
    requires i2 == i + SpaceStep(t, i) && j2 == j + SpaceStep(s, j)
    requires CollapseSpacesFrom(t, i2) == CollapseSpacesFrom(s, j2)
    ensures CollapseSpacesFrom(t, i) == CollapseSpacesFrom(s, j)
  {
    assert SpacePiece(t, i) == SpacePiece(s, j);
    SpaceCollapseUnfold(t, i, i2);
    SpaceCollapseUnfold(s, j, j2);
  }

  /** The collapse from `i` depends only on the text from `i` on. */
  lemma {:induction false} CollapseSpacesSuffix(t: string, i: nat, s: string, j: nat)
    requires i <= |t| && j <= |s| && Tail(t, i) == Tail(s, j)
    decreases |s| - j
    ensures CollapseSpacesFrom(t, i) == CollapseSpacesFrom(s, j)
  {
    if j < |s| {
      var k := SpaceStep(s, j);
      var i2, j2 := i + k, j + k;
      SuffixSpaceRun(t, i, s, j);
      TailStep(t, i, s, j);
      TailAdvance(t, i, s, j, k);
      CollapseSpacesSuffix(t, i2, s, j2);
      SameSpaceStep(t, i, i2, s, j, j2);
    } else {
      assert i == |t|;
      CollapseAtEnd(t, i);
    }
  }

  /** Nothing is left to collapse at the end of the text. */
  lemma CollapseAtEnd(t: string, i: nat)
    requires i == |t|
    ensures CollapseSpacesFrom(t, i) == []
  {
  }

  /** The collapse of a text behind a prefix is the collapse of the text itself. */
  lemma {:induction false} CollapseSpacesShift(p: string, s: string, j: nat)
    requires j <= |s|
    ensures CollapseSpacesFrom(p + s, |p| + j) == CollapseSpacesFrom(s, j)
  {
    TailShift(p, s, j);
    CollapseSpacesSuffix(p + s, |p| + j, s, j);
  }

  /** Two texts that do not meet inside a whitespace run. */
  predicate SpaceSeam(a: string, b: string) {
    a == [] || b == [] || !IsSpace(a[|a| - 1]) || !IsSpace(b[0])
  }

  /** Across a seam, a whitespace run inside `a` is not continued by `b`. */
  lemma {:induction false} SpaceRunBefore(a: string, b: string, i: nat)
    requires i < |a| && SpaceSeam(a, b)
    decreases |a| - i
    ensures SpaceRun(a + b, i) == SpaceRun(a, i)
  {
    assert (a + b)[i] == a[i];
    if IsSpace(a[i]) {
      if i + 1 < |a| {
        SpaceRunBefore(a, b, i + 1);
      } else if b != [] {
        assert (a + b)[|a|] == b[0];
      }
    }
  }

  /** Across a seam, a step inside `a` reads and writes what it does on `a`. */
  lemma {:induction false} PrefixSpacePiece(a: string, b: string, i: nat)
    requires i < |a| && SpaceSeam(a, b)
    ensures SpaceStep(a + b, i) == SpaceStep(a, i) && SpacePiece(a + b, i) == SpacePiece(a, i)
  {
    SpaceRunBefore(a, b, i);
    assert (a + b)[i] == a[i];
  }

  /** When `t` and `s` take the same step at `i`, and the rest of `t`
      collapses to the rest of `s` followed by `y`, so does all of `t`. */
  lemma {:induction false} ExtendedSpaceStep(t: string, s: string, i: nat, i2: nat, x: string, y: string)
    requires i < |t| && i < |s| && i2 == i + SpaceStep(t, i) == i + SpaceStep(s, i)
    requires SpacePiece(t, i) == SpacePiece(s, i)
    requires CollapseSpacesFrom(t, i2) == x + y && CollapseSpacesFrom(s, i2) == x
    ensures CollapseSpacesFrom(t, i) == CollapseSpacesFrom(s, i) + y
  {
    SpaceCollapseUnfold(t, i, i2);
    SpaceCollapseUnfold(s, i, i2);
    AppendRegroup(SpacePiece(s, i), x, y);
  }

  /** Concatenation regroups. */
  lemma AppendRegroup(a: string, b: string, c: string)
    ensures a + (b + c) == (a + b) + c
  {
  }

  /** The collapse from `i` of `a + b` is the collapse of the rest of `a`
      followed by the collapse of `b`. */
  lemma {:induction false} CollapseSpacesAppendFrom(a: string, b: string, i: nat)
    requires i <= |a| && SpaceSeam(a, b)
    decreases |a| - i
    ensures CollapseSpacesFrom(a + b, i) == CollapseSpacesFrom(a, i) + CollapseSpacesFrom(b, 0)
  {
    if i == |a| {
      CollapseSpacesShift(a, b, 0);
    } else {
      var t := a + b;
      PrefixSpacePiece(a, b, i);
      var i2 := i + SpaceStep(a, i);
      CollapseSpacesAppendFrom(a, b, i2);
      var x, y := CollapseSpacesFrom(a, i2), CollapseSpacesFrom(b, 0);
      ExtendedSpaceStep(t, a, i, i2, x, y);
    }
  }

  /** Texts that do not meet inside a whitespace run collapse separately:
      together with `CollapseSpacesRun`, each maximal run becomes one space
      and everything else is copied in order. */
  lemma {:induction false} CollapseSpacesAppend(a: string, b: string)
    requires SpaceSeam(a, b)
    ensures CollapseSpacesFrom(a + b, 0) == CollapseSpacesFrom(a, 0) + CollapseSpacesFrom(b, 0)
  {
    CollapseSpacesAppendFrom(a, b, 0);
  }

  /** A non-empty whitespace run between two texts that do not end or start
      with whitespace becomes exactly one space. */
  lemma {:induction false} CollapseSpacesBetween(a: string, w: string, b: string)
    requires |w| > 0 && forall j :: 0 <= j < |w| ==> IsSpace(w[j])
    requires a == [] || !IsSpace(a[|a| - 1])
    requires b == [] || !IsSpace(b[0])
    ensures CollapseSpacesFrom(a + w + b, 0) == CollapseSpacesFrom(a, 0) + " " + CollapseSpacesFrom(b, 0)
  {
    CollapseSpacesAppend(a + w, b);
    CollapseSpacesAppend(a, w);
    CollapseSpacesRun(w);
  }

  /** Single-spaced text is kept by the whitespace collapse. */
  lemma {:induction false} SingleSpacedKept(s: string, i: nat)
    requires i <= |s| && SingleSpaced(s)
    decreases |s| - i
    ensures CollapseSpacesFrom(s, i) == s[i..]
  {
    if i < |s| {
      if IsSpace(s[i]) {
        assert SpaceRun(s, i) == 1 by {
          if i + 1 < |s| {
            assert !SpacePair(s, i);
          }
        }
      }
      SingleSpacedKept(s, i + 1);
      assert s[i..] == [s[i]] + s[i + 1..];
    }
  }

  /** Lower-casing the input first changes nothing. */
  lemma MedicineNameIgnoresCase(raw: string)
    ensures MedicineName(Lower(raw)) == MedicineName(raw)
  {
    LowerIdempotent(raw);
  }

  /** A non-empty run of lower-case ASCII letters. */
  predicate Word(s: string) {
    |s| > 0 && forall j :: 0 <= j < |s| ==> IsLower(s[j])
  }

  /** A non-empty run of digits. */
  predicate Digits(s: string) {
    |s| > 0 && forall j :: 0 <= j < |s| ==> IsDigit(s[j])
  }

  lemma PrefixesAreWords()
    ensures forall k :: 0 <= k < |Prefixes| ==> Word(Prefixes[k])
  {
  }

  /** In front of a word followed by a space, a prefix matches only when it
      is the whole word. */
  lemma PrefixOnlyWhole(name: string, tail: string, p: string)
    requires Word(name) && Word(p) && |tail| > 0 && tail[0] == ' '
    ensures PrefixLength(name + tail, p) > 0 ==> p == name
  {
    var s := name + tail;
    if PrefixLength(s, p) > 0 {
      assert |p| < |s| && (s[|p|] == '.' || IsSpace(s[|p|]));
      assert s[..|p|] == p;
      assert s[|name|] == ' ';
      assert |p| == |name| by {
        assert forall j :: 0 <= j < |p| ==> p[j] == s[j];
        assert forall j :: 0 <= j < |name| ==> s[j] == name[j];
      }
      assert s[..|name|] == name;
    }
  }

  /** The line a prescription typically carries, formulation first and
      strength last. */
  function Line(name: string, dose: string): string {
    "Tab. " + name + " " + dose + "mg"
  }

  /** "Tab. <name> <dose>mg" cleans to the bare name, for any name that is a
      word other than a formulation. */
  lemma LineName(name: string, dose: string)
    requires Word(name) && name !in Prefixes && Digits(dose)
    ensures MedicineName(Line(name, dose)) == name
  {
    LineHead(name, dose);
    LinePrefixes(name, dose);
    LineTidy(name, dose);
  }

  /** The same holds whatever the case of the name as written: the
      "Tab. Metformin 500mg" of a prescription cleans to "metformin". */
  lemma AnyCaseLineName(written: string, dose: string)
    requires Word(Lower(written)) && Lower(written) !in Prefixes && Digits(dose)
    ensures MedicineName(Line(written, dose)) == Lower(written)
  {
    var name := Lower(written);
    var tail := " " + dose + "mg";
    var a := "Tab. " + written + tail;
    var b := "Tab. " + name + tail;
    assert a == Line(written, dose) && b == Line(name, dose);
    forall j | 0 <= j < |a|
      ensures LowerChar(a[j]) == LowerChar(b[j])
    {
      if 5 <= j < 5 + |written| {
        assert a[j] == written[j - 5] && b[j] == name[j - 5];
      } else if j >= 5 + |written| {
        assert a[j] == tail[j - 5 - |written|] == b[j];
      }
    }
    assert Lower(a) == Lower(b);
    MedicineNameIgnoresCase(a);
    MedicineNameIgnoresCase(b);
    LineName(name, dose);
  }

  lemma LineHead(name: string, dose: string)
    requires Word(name) && Digits(dose)
    ensures NameHead(Line(name, dose)) == "tab. " + (name + " " + dose + "mg")
  {
    var x := "ab. " + (name + " " + dose + "mg");
    LineHasNoCapital(name, dose);
    LowerCapitalT(x);
    assert Line(name, dose) == ['T'] + x;
    var line := ['t'] + x;
    assert line == "tab. " + (name + " " + dose + "mg");
    MissingChar(line, "-", 0);
    BeforeMissing(line, "-");
    StripUnchanged(line);
  }

  lemma LineHasNoCapital(name: string, dose: string)
    requires Word(name) && Digits(dose)
    ensures var x := "ab. " + (name + " " + dose + "mg");
      (forall j :: 0 <= j < |x| ==> !IsUpper(x[j])) && '-' !in x
  {
    var x := "ab. " + (name + " " + dose + "mg");
    forall j | 0 <= j < |x|
      ensures !IsUpper(x[j]) && x[j] != '-'
    {
      if 4 <= j < 4 + |name| {
        assert x[j] == name[j - 4];
      } else if 4 + |name| < j < 5 + |name| + |dose| {
        assert x[j] == dose[j - 5 - |name|];
      }
    }
  }

  lemma LinePrefixes(name: string, dose: string)
    requires Word(name) && name !in Prefixes && Digits(dose)
    ensures DropAll("tab. " + (name + " " + dose + "mg"), PrefixList()) == name + " " + dose + "mg"
  {
    var tail := " " + dose + "mg";
    var rest := name + tail;
    assert rest == name + " " + dose + "mg";
    var line := "tab. " + rest;
    TabDropped(rest);
    LaterPrefixesMiss(name, tail);
    var later := Prefixes[1..];
    assert ["tab"] + later == Prefixes;
    NoPrefixAfter(line, ["tab"], later);
  }

  /** "tab. " comes off the front. */
  lemma TabDropped(rest: string)
    requires rest != [] && !IsSpace(rest[0])
    ensures DropAll("tab. " + rest, ["tab"]) == rest
  {
    var line := "tab. " + rest;
    assert PrefixLength(line, "tab") == 5 by {
      assert line[..3] == "tab";
      assert SpaceRun(line, 5) == 0;
    }
    assert line[5..] == rest;
  }

  /** No prefix after "tab" matches a word that is not itself a prefix. */
  lemma LaterPrefixesMiss(name: string, tail: string)
    requires Word(name) && name !in Prefixes && |tail| > 0 && tail[0] == ' '
    ensures forall j :: 0 <= j < |Prefixes[1..]| ==> PrefixLength(name + tail, Prefixes[1..][j]) == 0
  {
    PrefixesAreWords();
    var later := Prefixes[1..];
    forall j | 0 <= j < |later|
      ensures PrefixLength(name + tail, later[j]) == 0
    {
      PrefixOnlyWhole(name, tail, later[j]);
    }
  }

  lemma LineStrength(name: string, dose: string)
    requires Word(name) && Digits(dose)
    ensures RemoveStrengthsFrom(name + " " + dose + "mg", 0) == name + " "
  {
    var s := name + " " + dose + "mg";
    var n := |name| + 1;
    DigitFreeStrengths(s, 0, n);
    assert s[0..n] == name + " ";
    StrengthAfterName(name, dose);
  }

  /** The dose and its unit make one strength. */
  lemma StrengthAfterName(name: string, dose: string)
    requires Word(name) && Digits(dose)
    ensures StrengthLength(name + " " + dose + "mg", |name| + 1) == |dose| + 2
  {
    var s := name + " " + dose + "mg";
    var n := |name| + 1;
    var j := n + |dose|;
    assert WordStart(s, n);
    DigitRunTo(s, n, j);
    assert SpaceRun(s, j) == 0;
    assert s[j] == 'm' && s[j + 1] == 'g';
  }

  /** A word and a space pass the number removal and the whitespace collapse. */
  lemma WordSpaceKept(name: string)
    requires Word(name)
    ensures RemoveNumbersFrom(name + " ", 0) == name + " "
    ensures CollapseSpacesFrom(name + " ", 0) == name + " "
  {
    var kept := name + " ";
    DigitFreeNumbers(kept, 0, |kept|);
    assert kept[0..|kept|] == kept;
    assert SingleSpaced(kept);
    SingleSpacedKept(kept, 0);
    assert kept[0..] == kept;
  }

  lemma LineTidy(name: string, dose: string)
    requires Word(name) && Digits(dose)
    ensures Tidy(name + " " + dose + "mg") == name
  {
    LineStrength(name, dose);
    WordSpaceKept(name);
    StripTrailingSpace(name);
  }

  // ---------------------------------------------------------------------
  // clean_gemini_response

  /** `re.sub(r'```json\s*', '', s)` scanning from `i`: every "```json" goes,
      with the whitespace run after it. */
  function RemoveJsonFencesFrom(s: string, i: nat): (r: string)
    requires i <= |s|
    decreases |s| - i
    ensures forall c :: c in r ==> c in s
  {
    if i == |s| then []
    else if OccursAt(s, JsonFence, i) then RemoveJsonFencesFrom(s, i + |JsonFence| + SpaceRun(s, i + |JsonFence|))
    else [s[i]] + RemoveJsonFencesFrom(s, i + 1)
  }

  /** A stretch `s[i..k]` where no "```json" starts is copied. */
  lemma {:induction false} JsonFreeStretch(s: string, i: nat, k: nat)
    requires i <= k <= |s| && forall j :: i <= j < k ==> !OccursAt(s, JsonFence, j)
    decreases k - i
    ensures RemoveJsonFencesFrom(s, i) == s[i..k] + RemoveJsonFencesFrom(s, k)
  {
    if i < k {
      JsonFreeStretch(s, i + 1, k);
      Regroup(s, i, k, RemoveJsonFencesFrom(s, i), RemoveJsonFencesFrom(s, i + 1), RemoveJsonFencesFrom(s, k));
    }
  }

  /** The first "```json", at `k`, is deleted together with the whole
      whitespace run of length `w` after it; the text before it is kept. */
  lemma {:induction false} JsonFenceDropped(s: string, k: nat, w: nat)
    requires OccursAt(s, JsonFence, k) && forall j :: 0 <= j < k ==> !OccursAt(s, JsonFence, j)
    requires k + |JsonFence| + w <= |s|
    requires forall j :: k + |JsonFence| <= j < k + |JsonFence| + w ==> IsSpace(s[j])
    requires k + |JsonFence| + w == |s| || !IsSpace(s[k + |JsonFence| + w])
    ensures RemoveJsonFencesFrom(s, 0) == s[..k] + RemoveJsonFencesFrom(s, k + |JsonFence| + w)
  {
    JsonFreeStretch(s, 0, k);
    JsonFenceAt(s, k, w);
    assert s[0..k] == s[..k];
  }

  /** The removal skips a "```json" and the whitespace run after it. */
  lemma {:induction false} JsonFenceAt(s: string, k: nat, w: nat)
    requires OccursAt(s, JsonFence, k) && k + |JsonFence| + w <= |s|
    requires forall j :: k + |JsonFence| <= j < k + |JsonFence| + w ==> IsSpace(s[j])
    requires k + |JsonFence| + w == |s| || !IsSpace(s[k + |JsonFence| + w])
    ensures RemoveJsonFencesFrom(s, k) == RemoveJsonFencesFrom(s, k + |JsonFence| + w)
  {
    SpaceRunTo(s, k + |JsonFence|, k + |JsonFence| + w);
  }

  /** Everything from `k` on is whitespace. */
  predicate SpaceFrom(s: string, k: nat) {
    forall j :: k <= j < |s| ==> IsSpace(s[j])
  }

  /** The first position at or after `from` of a fence followed only by
      whitespace: where `` ```\s*$ `` first matches. The greedy `\s*` reaches
      the end or stops at a non-space, where `$` cannot match. */
  function ClosingFenceFrom(s: string, from: nat): (r: Option<nat>)
    decreases |s| - from
    ensures r.Some? ==> from <= r.value && OccursAt(s, Fence, r.value) && SpaceFrom(s, r.value + |Fence|)
    ensures r.Some? ==> forall j :: from <= j < r.value ==> !(OccursAt(s, Fence, j) && SpaceFrom(s, j + |Fence|))
    ensures r.None? ==> forall j :: from <= j ==> !(OccursAt(s, Fence, j) && SpaceFrom(s, j + |Fence|))
  {
    if from + |Fence| > |s| then None
    else if OccursAt(s, Fence, from) && SpaceFrom(s, from + |Fence|) then Some(from)
    else ClosingFenceFrom(s, from + 1)
  }

  /** `re.sub(r'```\s*$', '', s)`: the text before a closing fence at the end. */
  function DropClosingFence(s: string): (r: string)
    ensures |r| <= |s| && r == s[..|r|]
    ensures r == s || (OccursAt(s, Fence, |r|) && SpaceFrom(s, |r| + |Fence|))
    ensures ClosingFenceFrom(s, 0).Some? ==> r == s[..ClosingFenceFrom(s, 0).value]
    ensures ClosingFenceFrom(s, 0).None? ==> r == s
  {
    match ClosingFenceFrom(s, 0)
    case Some(i) => s[..i]
    case None => s
  }

  /** `clean_gemini_response` */
  function CleanGeminiResponse(text: string): string {
    Strip(DropClosingFence(RemoveJsonFencesFrom(text, 0)))
  }

  /** Text with no "```json" from `i` on passes the fence removal unchanged. */
  lemma {:induction false} NoJsonFenceKept(s: string, i: nat)
    requires i <= |s| && forall j :: i <= j < |s| ==> !OccursAt(s, JsonFence, j)
    decreases |s| - i
    ensures RemoveJsonFencesFrom(s, i) == s[i..]
  {
    if i < |s| {
      NoJsonFenceKept(s, i + 1);
      assert s[i..] == [s[i]] + s[i + 1..];
    }
  }

  /** A reply without code fences is only trimmed. */
  lemma PlainReplyTrimmed(text: string)
    requires '`' !in text
    ensures CleanGeminiResponse(text) == Strip(text)
  {
    forall j | 0 <= j < |text|
      ensures !OccursAt(text, JsonFence, j)
    {
      OccursAtFirst(text, JsonFence, j);
    }
    NoJsonFenceKept(text, 0);
    assert text[0..] == text;
    MissingChar(text, Fence, 0);
    if ClosingFenceFrom(text, 0).Some? {
      ContainsAt(text, Fence, ClosingFenceFrom(text, 0).value);
    }
  }

  /** The closing fence found is the first fence with only whitespace after it. */
  lemma {:induction false} ClosingFenceAt(u: string, from: nat, i: nat)
    requires from <= i && OccursAt(u, Fence, i) && SpaceFrom(u, i + |Fence|)
    requires forall j :: from <= j < i ==> u[j] != '`'
    decreases i - from
    ensures ClosingFenceFrom(u, from) == Some(i)
  {
    if from < i {
      OccursAtFirst(u, Fence, from);
      ClosingFenceAt(u, from + 1, i);
    }
  }

  /** A reply wrapped in a JSON code block. */
  function Fenced(body: string): string {
    JsonFence + "\n" + body + "\n" + Fence
  }

  /** A JSON code block is unwrapped to its trimmed body, whatever its body
      holds other than backticks. */
  lemma FencedReplyUnwrapped(body: string)
    requires '`' !in body
    ensures CleanGeminiResponse(Fenced(body)) == Strip(body)
  {
    var t := Fenced(body);
    var k := |JsonFence| + SpaceRun(t, |JsonFence|);
    FenceOpened(body);
    FenceClosed(body, k);
    StripOpenedBody(body, k);
  }

  /** What is left between the fences strips to the stripped body. */
  lemma StripOpenedBody(body: string, k: nat)
    requires 7 <= k <= |Fenced(body)| - 3 && AllSpace(Fenced(body)[7..k])
    ensures var t := Fenced(body); Strip(t[k..|t| - 3]) == Strip(body)
  {
    var t := Fenced(body);
    var w := "\n" + body + "\n";
    assert w == t[7..|t| - 3];
    assert t[k..|t| - 3] == w[k - 7..];
    assert w[..k - 7] == t[7..k];
    StripDropSpaces(w, k - 7);
    StripPadded("\n", body, "\n");
  }

  /** A fenced reply cleans to what its bare body cleans to. */
  lemma FencedLikeBody(body: string)
    requires '`' !in body
    ensures CleanGeminiResponse(Fenced(body)) == CleanGeminiResponse(Strip(body))
  {
    FencedReplyUnwrapped(body);
    StripChars(body, '`');
    PlainReplyTrimmed(Strip(body));
    StripIdempotent(body);
  }

  /** The opening fence and the whitespace after it go, and nothing else. */
  lemma FenceOpened(body: string)
    requires '`' !in body
    ensures var t := Fenced(body); var k := |JsonFence| + SpaceRun(t, |JsonFence|);
      && k <= |t| - 3 && RemoveJsonFencesFrom(t, 0) == t[k..]
  {
    var t := Fenced(body);
    var k := |JsonFence| + SpaceRun(t, |JsonFence|);
    assert t[..7] == JsonFence;
    assert t[|t| - 3] == '`';
    forall j | k <= j < |t|
      ensures !OccursAt(t, JsonFence, j)
    {
      OccursAtFirst(t, JsonFence, j);
      if j < |t| - 3 {
        assert j == 7 || j == |t| - 4 || t[j] == body[j - 8];
      }
    }
    NoJsonFenceKept(t, k);
  }

  /** The closing fence goes, leaving the body with the whitespace around it. */
  lemma FenceClosed(body: string, k: nat)
    requires '`' !in body
    requires k == |JsonFence| + SpaceRun(Fenced(body), |JsonFence|) && k <= |Fenced(body)| - 3
    ensures var t := Fenced(body);
      && DropClosingFence(t[k..]) == t[k..|t| - 3]
      && AllSpace(t[7..k])
  {
    var t := Fenced(body);
    var u := t[k..];
    var n := |u| - 3;
    forall j | 0 <= j < n
      ensures u[j] != '`'
    {
      assert u[j] == t[k + j];
      assert k + j == 7 || k + j == |t| - 4 || t[k + j] == body[k + j - 8];
    }
    assert u[n..n + 3] == Fence;
    ClosingFenceAt(u, 0, n);
    assert u[..n] == t[k..|t| - 3];
  }
}
