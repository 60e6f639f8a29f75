/** The parts of Python's `str` type that the two core modules rely on:
    character classes, case mapping, `strip`, `split`, `join`, `in` and
    `replace`, stated over `seq<char>`. */
module Text {
  import opened Wrappers

  /** `c.isspace()`: exactly the code points CPython treats as whitespace. */
  predicate IsSpace(c: char) {
    ('\t' <= c <= '\r') || ('\U{1C}' <= c <= '\U{1F}') || c == ' ' ||
    c == '\U{85}' || c == '\U{A0}' || c == '\U{1680}' ||
    ('\U{2000}' <= c <= '\U{200A}') || c == '\U{2028}' || c == '\U{2029}' ||
    c == '\U{202F}' || c == '\U{205F}' || c == '\U{3000}'
  }

  /** Regex `\d` (ASCII digits only in this model). */
  predicate IsDigit(c: char) { '0' <= c <= '9' }

  predicate IsUpper(c: char) { 'A' <= c <= 'Z' }

  predicate IsLower(c: char) { 'a' <= c <= 'z' }

  /** A cased character in the sense of `str.title()` (ASCII letters here). */
  predicate IsLetter(c: char) { IsUpper(c) || IsLower(c) }

  /** Regex `\w` (ASCII word characters here). */
  predicate IsWordChar(c: char) { IsLetter(c) || IsDigit(c) || c == '_' }

  function LowerChar(c: char): (d: char)
    ensures !IsUpper(d)
    ensures !IsLetter(c) ==> d == c
  {
    if IsUpper(c) then (c as int + 32) as char else c
  }

  function UpperChar(c: char): (d: char)
    ensures !IsLetter(c) ==> d == c
  {
    if IsLower(c) then (c as int - 32) as char else c
  }

  /** `s.lower()` */
  function Lower(s: string): (r: string)
    ensures |r| == |s|
    ensures forall i :: 0 <= i < |s| ==> r[i] == LowerChar(s[i])
  {
    seq(|s|, i requires 0 <= i < |s| => LowerChar(s[i]))
  }

  /** Lower-casing commutes with slicing. */
  lemma LowerSlice(s: string, a: nat, b: nat)
    requires a <= b <= |s|
    ensures Lower(s)[a..b] == Lower(s[a..b])
  {
    var x := Lower(s)[a..b];
    var y := Lower(s[a..b]);
    forall j | 0 <= j < b - a
      ensures x[j] == y[j]
    {
      assert x[j] == LowerChar(s[a + j]);
    }
  }

  /** Text without upper-case letters is its own lower-case form. */
  lemma LowerNoUpper(s: string)
    requires forall j :: 0 <= j < |s| ==> !IsUpper(s[j])
    ensures Lower(s) == s
  {
  }

  /** Lower-casing a capital 'T' in front of text without capitals. */
  lemma LowerCapitalT(x: string)
    requires forall j :: 0 <= j < |x| ==> !IsUpper(x[j])
    ensures Lower(['T'] + x) == ['t'] + x
  {
    assert (['T'] + x)[1..] == x;
    LowerNoUpper(x);
  }

  lemma LowerIdempotent(s: string)
    ensures Lower(Lower(s)) == Lower(s)
  {
  }

  /** Lower-casing commutes with dropping a prefix. */
  lemma LowerSuffix(s: string, a: nat)
    requires a <= |s|
    ensures Lower(s)[a..] == Lower(s[a..])
  {
  }

  /** `s.title()` continued after a character whose casedness is `prevCased`. */
  function TitleFrom(s: string, prevCased: bool): (r: string)
    ensures |r| == |s|
    ensures forall i :: 0 <= i < |s| && !IsLetter(s[i]) ==> r[i] == s[i]
  {
    if s == [] then []
    else [if prevCased then LowerChar(s[0]) else UpperChar(s[0])] + TitleFrom(s[1..], IsLetter(s[0]))
  }

  /** `s.title()`: a letter is upper-cased after a non-letter and lower-cased after a letter. */
  function Title(s: string): (r: string)
    ensures |r| == |s|
    ensures forall i :: 0 <= i < |s| && !IsLetter(s[i]) ==> r[i] == s[i]
  {
    TitleFrom(s, false)
  }

  /** A character that is not a letter occurs in `Title(s)` exactly when it occurs in `s`. */
  lemma TitleKeepsNonLetters(s: string, c: char)
    requires !IsLetter(c)
    ensures c in Title(s) <==> c in s
  {
    var t := Title(s);
    if c in t {
      var i :| 0 <= i < |t| && t[i] == c;
      if IsLetter(s[i]) {
        assert t[i] == TitleFrom(s, false)[i];
        TitleLetterStaysLetter(s, false, i);
      }
    }
  }

  lemma TitleLetterStaysLetter(s: string, prevCased: bool, i: nat)
    requires i < |s| && IsLetter(s[i])
    ensures IsLetter(TitleFrom(s, prevCased)[i])
  {
    if i > 0 {
      TitleLetterStaysLetter(s[1..], IsLetter(s[0]), i - 1);
    }
  }

  /** `s.lstrip()` */
  function LStrip(s: string): (r: string)
    ensures |r| <= |s| && r == s[|s| - |r|..]
    ensures r != [] ==> !IsSpace(r[0])
  {
    if s != [] && IsSpace(s[0]) then LStrip(s[1..]) else s
  }

  /** `s.rstrip()` */
  function RStrip(s: string): (r: string)
    ensures |r| <= |s| && r == s[..|r|]
    ensures r != [] ==> !IsSpace(r[|r| - 1])
  {
    if s != [] && IsSpace(s[|s| - 1]) then RStrip(s[..|s| - 1]) else s
  }

  /** `s.strip()`: the slice of `s` left after dropping whitespace at both ends. */
  function Strip(s: string): (r: string)
    ensures |r| <= |s|
    ensures r != [] ==> !IsSpace(r[0]) && !IsSpace(r[|r| - 1])
  {
    var l := LStrip(s);
    var r := RStrip(l);
    assert r != [] ==> r[0] == l[0];
    r
  }

  /** The stripped text is the slice of `s` after its leading whitespace. */
  lemma StripSlice(s: string)
    ensures var a := |s| - |LStrip(s)|;
      a + |Strip(s)| <= |s| && Strip(s) == s[a..a + |Strip(s)|]
  {
    var l := LStrip(s);
    var r := RStrip(l);
    HeadOfTail(s, |s| - |l|, l, r);
  }

  /** A prefix of a tail of `s` is a slice of `s`. */
  lemma HeadOfTail(s: string, a: nat, t: string, h: string)
    requires a <= |s| && t == s[a..] && |h| <= |t| && h == t[..|h|]
    ensures a + |h| <= |s| && h == s[a..a + |h|]
  {
  }

  /** Text without whitespace at either end is its own strip. */
  lemma StripUnchanged(s: string)
    requires s != [] ==> !IsSpace(s[0]) && !IsSpace(s[|s| - 1])
    ensures Strip(s) == s
  {
    assert LStrip(s) == s;
    assert RStrip(s) == s;
  }

  /** A single trailing space is stripped off text that has no whitespace at
      either end. */
  lemma StripTrailingSpace(s: string)
    requires s != [] && !IsSpace(s[0]) && !IsSpace(s[|s| - 1])
    ensures Strip(s + " ") == s
  {
    var t := s + " ";
    assert LStrip(t) == t;
    assert t[..|t| - 1] == s;
    assert RStrip(s) == s;
  }

  /** Every character of `s` is whitespace. */
  predicate AllSpace(s: string) {
    forall j :: 0 <= j < |s| ==> IsSpace(s[j])
  }

  /** Leading whitespace makes no difference to `lstrip`. */
  lemma {:induction false} LStripSpaces(a: string, s: string)
    requires AllSpace(a)
    ensures LStrip(a + s) == LStrip(s)
  {
    if a != [] {
      assert (a + s)[1..] == a[1..] + s;
      LStripSpaces(a[1..], s);
    } else {
      assert a + s == s;
    }
  }

  /** Trailing whitespace makes no difference to `rstrip`. */
  lemma {:induction false} RStripSpaces(s: string, b: string)
    requires AllSpace(b)
    ensures RStrip(s + b) == RStrip(s)
  {
    if b != [] {
      assert (s + b)[..|s + b| - 1] == s + b[..|b| - 1];
      RStripSpaces(s, b[..|b| - 1]);
    } else {
      assert s + b == s;
    }
  }

  /** Text with something to keep keeps what follows it under `lstrip`. */
  lemma {:induction false} LStripAppend(s: string, b: string)
    ensures LStrip(s) != [] ==> LStrip(s + b) == LStrip(s) + b
    ensures LStrip(s) == [] ==> LStrip(s + b) == LStrip(b)
  {
    if s == [] {
      assert s + b == b;
    } else {
      assert (s + b)[0] == s[0];
      if IsSpace(s[0]) {
        assert LStrip(s + b) == LStrip((s + b)[1..]);
        assert (s + b)[1..] == s[1..] + b;
        LStripAppend(s[1..], b);
      }
    }
  }

  /** Whitespace around text makes no difference to `strip`. */
  lemma StripPadded(a: string, s: string, b: string)
    requires AllSpace(a) && AllSpace(b)
    ensures Strip(a + s + b) == Strip(s)
  {
    assert a + s + b == a + (s + b);
    LStripSpaces(a, s + b);
    LStripAppend(s, b);
    if LStrip(s) == [] {
      LStripSpaces(b, []);
      assert b + [] == b;
    } else {
      RStripSpaces(LStrip(s), b);
    }
  }

  /** Dropping leading whitespace makes no difference to `strip`. */
  lemma StripDropSpaces(s: string, k: nat)
    requires k <= |s| && AllSpace(s[..k])
    ensures Strip(s[k..]) == Strip(s)
  {
    SplitAt(s, k);
    StripPadded(s[..k], s[k..], []);
  }

  /** A string is its head, its tail and nothing more. */
  lemma SplitAt(s: string, k: nat)
    requires k <= |s|
    ensures s[..k] + s[k..] + [] == s
  {
  }

  lemma StripIdempotent(s: string)
    ensures Strip(Strip(s)) == Strip(s)
  {
    StripUnchanged(Strip(s));
  }

  /** A character of `Strip(s)` is a character of `s`. */
  lemma StripChars(s: string, c: char)
    ensures c in Strip(s) ==> c in s
  {
    var r := Strip(s);
    StripSlice(s);
    if c in r {
      var a := |s| - |LStrip(s)|;
      var i :| 0 <= i < |r| && r[i] == c;
      assert s[a + i] == c;
    }
  }

  /** `s.replace(a, b)` for single characters. */
  function ReplaceChar(s: string, a: char, b: char): (r: string)
    ensures |r| == |s|
    ensures forall i :: 0 <= i < |s| ==> r[i] == if s[i] == a then b else s[i]
  {
    if s == [] then [] else [if s[0] == a then b else s[0]] + ReplaceChar(s[1..], a, b)
  }

  /** Number of occurrences of `c` in `s`. */
  function Count(s: string, c: char): nat {
    if s == [] then 0 else (if s[0] == c then 1 else 0) + Count(s[1..], c)
  }

  lemma CountAppend(a: string, b: string, c: char)
    ensures Count(a + b, c) == Count(a, c) + Count(b, c)
  {
    if a == [] {
      assert a + b == b;
    } else {
      assert (a + b)[1..] == a[1..] + b;
      CountAppend(a[1..], b, c);
    }
  }

  /** The Markdown code-fence markers model replies come wrapped in. */
  const Fence: string := "```"
  const JsonFence: string := "```json"

  /** `s.startswith(p)` */
  predicate StartsWith(s: string, p: string) {
    |p| <= |s| && s[..|p|] == p
  }

  /** `t` occurs in `s` starting at position `i`. */
  predicate OccursAt(s: string, t: string, i: nat) {
    i + |t| <= |s| && s[i..i + |t|] == t
  }

  /** An occurrence of a non-empty `t` starts with the first character of `t`. */
  lemma OccursAtFirst(s: string, t: string, i: nat)
    ensures OccursAt(s, t, i) && |t| > 0 ==> s[i] == t[0]
  {
    if OccursAt(s, t, i) && |t| > 0 {
      assert s[i..i + |t|][0] == s[i];
    }
  }

  /** Position of the first occurrence of `t` in `s` at or after `from` (`s.find(t, from)`). */
  function IndexFrom(s: string, t: string, from: nat): (r: Option<nat>)
    decreases |s| - from
    ensures r.Some? ==> from <= r.value && OccursAt(s, t, r.value)
    ensures r.Some? ==> forall j :: from <= j < r.value ==> !OccursAt(s, t, j)
    ensures r.None? ==> forall j :: from <= j ==> !OccursAt(s, t, j)
  {
    if from + |t| > |s| then None
    else if s[from..from + |t|] == t then Some(from)
    else IndexFrom(s, t, from + 1)
  }

  /** `t in s` */
  predicate Contains(s: string, t: string) {
    IndexFrom(s, t, 0).Some?
  }

  lemma ContainsAt(s: string, t: string, i: nat)
    requires OccursAt(s, t, i)
    ensures Contains(s, t)
  {
  }

  /** A string lacking some character of `t` does not contain `t`. */
  lemma MissingChar(s: string, t: string, i: nat)
    requires i < |t| && t[i] !in s
    ensures !Contains(s, t)
  {
  }

  /** Text without `t` is all before `t`. */
  lemma BeforeMissing(s: string, t: string)
    requires |t| > 0 && !Contains(s, t)
    ensures Before(s, t) == s
  {
  }

  /** For a single character, substring containment is membership. */
  lemma ContainsChar(s: string, c: char)
    ensures Contains(s, [c]) <==> c in s
  {
    if c in s {
      var i :| 0 <= i < |s| && s[i] == c;
      assert s[i..i + 1] == [c];
      assert OccursAt(s, [c], i);
    }
    if Contains(s, [c]) {
      var i := IndexFrom(s, [c], 0).value;
      assert s[i..i + 1] == [c];
      assert s[i] == c;
    }
  }

  /** `s.split(t)[0]`: the text before the first occurrence of `t`, or all of `s`. */
  function Before(s: string, t: string): (r: string)
    requires |t| > 0
    ensures |r| <= |s| && r == s[..|r|]
    ensures r == s || OccursAt(s, t, |r|)
    ensures forall j: nat :: j < |r| ==> !OccursAt(s, t, j)
    ensures !Contains(r, t)
  {
    match IndexFrom(s, t, 0)
    case Some(i) =>
      assert !Contains(s[..i], t) by {
        if Contains(s[..i], t) {
          var j := IndexFrom(s[..i], t, 0).value;
          OccursInPrefix(s, i, t, j);
        }
      }
      s[..i]
    case None => s
  }

  /** The text after the first occurrence of `t` in `s`; with `Before`, Python's
      `s.split(t)[1]` is `Before(After(s, t), t)`. */
  function After(s: string, t: string): (r: string)
    requires |t| > 0 && Contains(s, t)
    ensures |r| + |t| <= |s| && r == s[|s| - |r|..]
    ensures OccursAt(s, t, |s| - |r| - |t|)
    ensures forall j: nat :: j < |s| - |r| - |t| ==> !OccursAt(s, t, j)
  {
    var i := IndexFrom(s, t, 0).value;
    s[i + |t|..]
  }

  /** An occurrence of `t` inside a prefix of `s` is one in `s`. */
  lemma OccursInPrefix(s: string, n: nat, t: string, i: nat)
    requires n <= |s| && OccursAt(s[..n], t, i)
    ensures OccursAt(s, t, i)
  {
    assert s[..n][i..i + |t|] == s[i..i + |t|];
  }

  /** An occurrence of `u` is one of every prefix `t` of `u`. */
  lemma PrefixOccurs(s: string, t: string, u: string, i: nat)
    requires |t| <= |u| && u[..|t|] == t && OccursAt(s, u, i)
    ensures OccursAt(s, t, i)
  {
    assert s[i..i + |t|] == s[i..i + |u|][..|t|];
  }

  /** `s.split(c)` */
  function Split(s: string, c: char): (parts: seq<string>)
    ensures |parts| == Count(s, c) + 1
    ensures forall k :: 0 <= k < |parts| ==> c !in parts[k]
  {
    if s == [] then [""]
    else
      var rest := Split(s[1..], c);
      if s[0] == c then [""] + rest
      else [[s[0]] + rest[0]] + rest[1..]
  }

  /** `sep.join(parts)` */
  function Join(parts: seq<string>, sep: string): string {
    if parts == [] then ""
    else if |parts| == 1 then parts[0]
    else parts[0] + sep + Join(parts[1..], sep)
  }

  /** Joining the pieces of a split with the separator gives back the string. */
  lemma {:induction false} JoinSplit(s: string, c: char)
    ensures Join(Split(s, c), [c]) == s
  {
    if s != [] {
      var rest := Split(s[1..], c);
      JoinSplit(s[1..], c);
      if s[0] == c {
        assert Split(s, c) == [""] + rest;
        assert Join(Split(s, c), [c]) == "" + [c] + Join(rest, [c]);
      } else {
        var parts := Split(s, c);
        assert parts == [[s[0]] + rest[0]] + rest[1..];
        if |rest| == 1 {
          assert Join(parts, [c]) == [s[0]] + rest[0];
        } else {
          assert Join(rest, [c]) == rest[0] + [c] + Join(rest[1..], [c]);
          assert parts[1..] == rest[1..];
          assert Join(parts, [c]) == [s[0]] + rest[0] + [c] + Join(rest[1..], [c]);
        }
      }
    }
  }

  /** A string without the separator splits into itself alone. */
  lemma {:induction false} SplitWithout(s: string, c: char)
    requires c !in s
    ensures Split(s, c) == [s]
  {
    if s != [] {
      SplitWithout(s[1..], c);
      assert [s[0]] + s[1..] == s;
    }
  }

  /** A separator-free piece followed by the separator splits off as the first part. */
  lemma {:induction false} SplitAfter(a: string, c: char, rest: string)
    requires c !in a
    ensures Split(a + [c] + rest, c) == [a] + Split(rest, c)
  {
    if a != [] {
      SplitAfter(a[1..], c, rest);
      assert (a + [c] + rest)[1..] == a[1..] + [c] + rest;
      assert [a[0]] + a[1..] == a;
    } else {
      assert (a + [c] + rest)[1..] == rest;
    }
  }

  /** `s.replace(t, "")`: occurrences of `t` removed left to right, without overlap. */
  function RemoveAll(s: string, t: string): (r: string)
    requires |t| > 0
    ensures |r| <= |s|
    ensures forall c :: c in r ==> c in s
  {
    if |s| < |t| then s
    else if s[..|t|] == t then
      var r := RemoveAll(s[|t|..], t);
      assert forall c :: c in r ==> c in s by {
        forall c | c in r ensures c in s {
          var i :| 0 <= i < |r| && r[i] == c;
          var j :| 0 <= j < |s[|t|..]| && s[|t|..][j] == c;
          assert s[|t| + j] == c;
        }
      }
      r
    else
      var r := RemoveAll(s[1..], t);
      assert forall c :: c in r ==> c in s by {
        forall c | c in r ensures c in s {
          var j :| 0 <= j < |s[1..]| && s[1..][j] == c;
          assert s[1 + j] == c;
        }
      }
      [s[0]] + r
  }

  /** An occurrence of `t` at the front is removed. */
  lemma RemoveAllFront(t: string, s: string)
    requires |t| > 0
    ensures RemoveAll(t + s, t) == RemoveAll(s, t)
  {
    assert (t + s)[..|t|] == t;
    assert (t + s)[|t|..] == s;
  }

  /** Text in front where no occurrence of `t` starts is copied. */
  lemma {:induction false} RemoveAllCopy(a: string, b: string, t: string)
    requires |t| > 0 && forall j :: 0 <= j < |a| ==> !OccursAt(a + b, t, j)
    decreases |a|
    ensures RemoveAll(a + b, t) == a + RemoveAll(b, t)
  {
    if a == [] {
      assert a + b == b;
    } else if |a + b| < |t| {
      assert RemoveAll(b, t) == b;
    } else {
      assert !OccursAt(a + b, t, 0);
      RemoveAllSkip(a + b, t);
      assert (a + b)[1..] == a[1..] + b;
      RemoveAllShift(a, b, t);
      RemoveAllCopy(a[1..], b, t);
      assert [a[0]] + (a[1..] + RemoveAll(b, t)) == a + RemoveAll(b, t);
    }
  }

  /** Where `t` does not start, the first character is copied. */
  lemma RemoveAllSkip(s: string, t: string)
    requires |t| > 0 && |t| <= |s| && !OccursAt(s, t, 0)
    ensures RemoveAll(s, t) == [s[0]] + RemoveAll(s[1..], t)
  {
    assert s[..|t|] != t;
  }

  /** No occurrence starts in the rest of `a` once its first character is gone. */
  lemma RemoveAllShift(a: string, b: string, t: string)
    requires a != [] && forall j :: 0 <= j < |a| ==> !OccursAt(a + b, t, j)
    ensures forall j :: 0 <= j < |a[1..]| ==> !OccursAt(a[1..] + b, t, j)
  {
    assert (a + b)[1..] == a[1..] + b;
    forall j | 0 <= j < |a[1..]|
      ensures !OccursAt(a[1..] + b, t, j)
    {
      assert !OccursAt(a + b, t, j + 1);
      if j + |t| <= |a[1..] + b| {
        assert (a[1..] + b)[j..j + |t|] == (a + b)[j + 1..j + 1 + |t|];
      }
    }
  }

  /** The first character of a slice, then the rest of it, then more text. */
  lemma Regroup(s: string, i: nat, k: nat, x: string, y: string, z: string)
    requires i < k <= |s| && x == [s[i]] + y && y == s[i + 1..k] + z
    ensures x == s[i..k] + z
  {
    assert s[i..k] == [s[i]] + s[i + 1..k];
  }

  /** Text without `t` is unchanged by removing `t`. */
  lemma {:induction false} RemoveAllMissing(s: string, t: string)
    requires |t| > 0 && !Contains(s, t)
    ensures RemoveAll(s, t) == s
  {
    if |s| >= |t| {
      assert !OccursAt(s, t, 0);
      assert !Contains(s[1..], t) by {
        if Contains(s[1..], t) {
          var j := IndexFrom(s[1..], t, 0).value;
          assert s[1..][j..j + |t|] == s[j + 1..j + 1 + |t|];
          assert OccursAt(s, t, j + 1);
        }
      }
      RemoveAllMissing(s[1..], t);
      assert s == [s[0]] + s[1..];
    }
  }

  /** Length of the run of digits starting at `i`. */
  function DigitRun(s: string, i: nat): (n: nat)
    requires i <= |s|
    decreases |s| - i
    ensures i + n <= |s|
    ensures forall j :: i <= j < i + n ==> IsDigit(s[j])
    ensures i + n == |s| || !IsDigit(s[i + n])
  {
    if i < |s| && IsDigit(s[i]) then 1 + DigitRun(s, i + 1) else 0
  }

  /** Length of the run of whitespace starting at `i`. */
  function SpaceRun(s: string, i: nat): (n: nat)
    requires i <= |s|
    decreases |s| - i
    ensures i + n <= |s|
    ensures forall j :: i <= j < i + n ==> IsSpace(s[j])
    ensures i + n == |s| || !IsSpace(s[i + n])
  {
    if i < |s| && IsSpace(s[i]) then 1 + SpaceRun(s, i + 1) else 0
  }

  /** A digit run that ends at `k` has length `k - i`. */
  lemma {:induction false} DigitRunTo(s: string, i: nat, k: nat)
    requires i <= k <= |s| && forall j :: i <= j < k ==> IsDigit(s[j])
    requires k == |s| || !IsDigit(s[k])
    decreases k - i
    ensures DigitRun(s, i) == k - i
  {
    if i < k {
      DigitRunTo(s, i + 1, k);
    }
  }

  /** A whitespace run that ends at `k` has length `k - i`. */
  lemma {:induction false} SpaceRunTo(s: string, i: nat, k: nat)
    requires i <= k <= |s| && forall j :: i <= j < k ==> IsSpace(s[j])
    requires k == |s| || !IsSpace(s[k])
    decreases k - i
    ensures SpaceRun(s, i) == k - i
  {
    if i < k {
      SpaceRunTo(s, i + 1, k);
    }
  }

  /** `str(n)` for a natural number. */
  function NatToString(n: nat): (r: string)
    ensures |r| > 0
    ensures forall c :: c in r ==> IsDigit(c)
  {
    var d := [(('0' as int) + n % 10) as char];
    if n < 10 then d else NatToString(n / 10) + d
  }

  /** `str(i)` for an integer. */
  function IntToString(i: int): (r: string)
    ensures |r| > 0
  {
    if i < 0 then "-" + NatToString(-i) else NatToString(i)
  }

  /** The text of `t` from `i` on, built one character at a time. */
  function Tail(t: string, i: nat): (r: string)
    requires i <= |t|
    decreases |t| - i
    ensures |r| == |t| - i
  {
    if i == |t| then [] else [t[i]] + Tail(t, i + 1)
  }

  /** Equal tails agree on their first character and on the tails after it. */
  lemma {:induction false} TailStep(t: string, i: nat, s: string, j: nat)
    requires i <= |t| && j < |s| && Tail(t, i) == Tail(s, j)
    ensures i < |t| && t[i] == s[j] && Tail(t, i + 1) == Tail(s, j + 1)
  {
    var a, b := Tail(t, i), Tail(s, j);
    assert a == [t[i]] + Tail(t, i + 1) && b == [s[j]] + Tail(s, j + 1);
    assert a[0] == t[i] && b[0] == s[j];
    assert a[1..] == Tail(t, i + 1) && b[1..] == Tail(s, j + 1);
  }

  /** Equal tails stay equal `k` characters further on. */
  lemma {:induction false} TailAdvance(t: string, i: nat, s: string, j: nat, k: nat)
    requires i <= |t| && j + k <= |s| && Tail(t, i) == Tail(s, j)
    decreases k
    ensures i + k <= |t| && Tail(t, i + k) == Tail(s, j + k)
  {
    if k > 0 {
      TailStep(t, i, s, j);
      TailAdvance(t, i + 1, s, j + 1, k - 1);
      assert i + 1 + (k - 1) == i + k && j + 1 + (k - 1) == j + k;
    }
  }

  /** The tail of a text behind a prefix is the tail of the text itself. */
  lemma {:induction false} TailShift(p: string, s: string, j: nat)
    requires j <= |s|
    decreases |s| - j
    ensures Tail(p + s, |p| + j) == Tail(s, j)
  {
    if j < |s| {
      TailShift(p, s, j + 1);
      assert (p + s)[|p| + j] == s[j];
      assert |p| + j + 1 == |p| + (j + 1);
    }
  }
}
