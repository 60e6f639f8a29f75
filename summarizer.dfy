/** The response handling of `medicine_info.py` (`extract_medicine_info`):
    turn the language model's reply into a record with six fixed keys, or
    into an error record; the function never raises. */
module Summarizer {
  import opened Wrappers
  import opened Text
  import opened Json

  /** The keys every record carries, in the order they are filled. */
  const RequiredKeys: seq<string> := [
    "medicine_name", "description", "key_benefits", "directions", "safety_info", "relevant_info"
  ]

  /** Only this many leading characters of the page are shown to the model. */
  const ContentBudget: nat := 20000

  const ErrorPrefix: string := "Error extracting information: "

  /** The model's reply text, or the message of the exception that calling
      the model or reading `response.text` raised. */
  datatype Reply = Replied(text: string) | Failed(error: string)

  /** The part of the page the prompt embeds: `markdown[:20000]`. */
  function Excerpt(markdown: string): (e: string)
    ensures |e| <= ContentBudget && |e| <= |markdown| && e == markdown[..|e|]
    ensures |markdown| <= ContentBudget ==> e == markdown
  {
    if |markdown| <= ContentBudget then markdown else markdown[..ContentBudget]
  }

  /** The code-fence cut before stripping: the second piece of a split on
      "```json" cut at its first "```"; else the second piece of a split on
      "```"; else the whole reply. */
  function FencePiece(text: string): string {
    if Contains(text, JsonFence) then Before(Before(After(text, JsonFence), JsonFence), Fence)
    else if Contains(text, Fence) then Before(After(text, Fence), Fence)
    else text
  }

  /** The JSON text the reply is reduced to before escaping. */
  function JsonText(text: string): string {
    Strip(FencePiece(text))
  }

  /** "```json" starts with "```". */
  lemma FenceInJsonFence(s: string, i: nat)
    requires OccursAt(s, JsonFence, i)
    ensures OccursAt(s, Fence, i)
  {
    PrefixOccurs(s, Fence, JsonFence, i);
  }

  /** Where the text after the first "```json" stops counting: at the next
      "```json", or at its end. */
  function NextJsonFence(rest: string): (m: nat)
    ensures m <= |rest|
    ensures m == |rest| || OccursAt(rest, JsonFence, m)
    ensures forall j: nat :: j < m ==> !OccursAt(rest, JsonFence, j)
  {
    match IndexFrom(rest, JsonFence, 0)
    case Some(i) => i
    case None => |rest|
  }

  /** The piece is cut at the first fence: with "```json" in the reply, the
      text after the first such marker, up to the next marker, is cut before
      its first "```" (a fence running into that next marker does not count);
      else the text after the first "```" is cut before the next one. With no
      fence in the reply, the piece is the whole reply. */
  lemma FencePieceSpec(text: string)
    ensures Contains(text, JsonFence) ==>
      var rest := After(text, JsonFence);
      var seg := rest[..NextJsonFence(rest)];
      var p := FencePiece(text);
      |p| <= |seg| && p == seg[..|p|] && (forall j: nat :: j < |p| ==> !OccursAt(seg, Fence, j))
        && (p == seg || OccursAt(seg, Fence, |p|))
    ensures !Contains(text, JsonFence) && Contains(text, Fence) ==>
      var rest := After(text, Fence);
      var p := FencePiece(text);
      |p| <= |rest| && p == rest[..|p|] && (forall j: nat :: j < |p| ==> !OccursAt(rest, Fence, j))
        && (p == rest || OccursAt(rest, Fence, |p|))
    ensures !Contains(text, Fence) ==> FencePiece(text) == text
  {
    if Contains(text, JsonFence) {
      var rest := After(text, JsonFence);
      assert Before(rest, JsonFence) == rest[..NextJsonFence(rest)];
      assert OccursAt(text, Fence, IndexFrom(text, JsonFence, 0).value) by {
        FenceInJsonFence(text, IndexFrom(text, JsonFence, 0).value);
      }
    }
  }

  /** A fence that runs into the next "```json" marker is not a cut: the
      reply "```jsonx````json" yields the piece "x`", although a fence starts
      right after the "x". */
  lemma StraddlingFenceExample()
    ensures FencePiece("```jsonx````json") == "x`"
  {
    var text := "```jsonx````json";
    assert text[0..7] == JsonFence;
    assert IndexFrom(text, JsonFence, 0) == Some(0);
    var rest := text[7..];
    assert After(text, JsonFence) == rest;
    assert rest[0..7][0] == 'x' != JsonFence[0];
    assert rest[1..8][3] == '`' != JsonFence[3];
    assert rest[2..9] == JsonFence;
    assert IndexFrom(rest, JsonFence, 2) == Some(2);
    assert IndexFrom(rest, JsonFence, 1) == Some(2);
    assert IndexFrom(rest, JsonFence, 0) == Some(2);
    assert Before(rest, JsonFence) == rest[..2] == "x`";
    assert IndexFrom("x`", Fence, 0) == None;
  }

  /** `s.replace('\\', '\\\\')` */
  function DoubleBackslashes(s: string): (r: string)
    ensures |r| == |s| + Count(s, '\\')
    ensures forall c :: c in r ==> c in s
  {
    if s == [] then [] else (if s[0] == '\\' then "\\\\" else [s[0]]) + DoubleBackslashes(s[1..])
  }

  /** The inverse of `DoubleBackslashes`: a pair of backslashes becomes one. */
  function HalveBackslashes(s: string): string {
    if |s| >= 2 && s[0] == '\\' && s[1] == '\\' then "\\" + HalveBackslashes(s[2..])
    else if s == [] then []
    else [s[0]] + HalveBackslashes(s[1..])
  }

  lemma {:induction false} HalveDouble(s: string)
    ensures HalveBackslashes(DoubleBackslashes(s)) == s
  {
    if s != [] {
      HalveDouble(s[1..]);
      var d := DoubleBackslashes(s);
      if s[0] == '\\' {
        assert d == "\\\\" + DoubleBackslashes(s[1..]);
        assert d[2..] == DoubleBackslashes(s[1..]);
      } else {
        assert d == [s[0]] + DoubleBackslashes(s[1..]);
        assert d[1..] == DoubleBackslashes(s[1..]);
      }
    }
  }

  lemma {:induction false} CountReplaced(s: string)
    ensures Count(ReplaceChar(s, '\n', ' '), '\\') == Count(s, '\\')
  {
    if s != [] {
      CountReplaced(s[1..]);
      assert ReplaceChar(s, '\n', ' ')[1..] == ReplaceChar(s[1..], '\n', ' ');
    }
  }

  /** The clean-up before decoding: newlines become spaces, then every
      backslash is doubled. */
  function Escape(s: string): (r: string)
    ensures |r| == |s| + Count(s, '\\')
    ensures '\n' !in r
  {
    CountReplaced(s);
    DoubleBackslashes(ReplaceChar(s, '\n', ' '))
  }

  /** Escaping loses exactly the newlines: undoing the doubling gives the
      text with newlines turned into spaces. */
  lemma EscapeInverse(s: string)
    ensures HalveBackslashes(Escape(s)) == ReplaceChar(s, '\n', ' ')
    ensures '\n' !in s ==> HalveBackslashes(Escape(s)) == s
  {
    HalveDouble(ReplaceChar(s, '\n', ' '));
    if '\n' !in s {
      assert ReplaceChar(s, '\n', ' ') == s;
    }
  }

  predicate IsAscii(c: char) { c as int < 128 }

  /** `re.sub(r'[^\x00-\x7F]+', '', s)`: every non-ASCII character is deleted. */
  function StripNonAscii(s: string): (r: string)
    ensures forall c :: c in r ==> IsAscii(c) && c in s
    ensures forall c :: c in s && IsAscii(c) ==> c in r
    ensures (forall c :: c in s ==> IsAscii(c)) ==> r == s
  {
    if s == [] then [] else (if IsAscii(s[0]) then [s[0]] else []) + StripNonAscii(s[1..])
  }

  /** The removal works piece by piece: with the clauses above (an ASCII
      character is kept, a non-ASCII one dropped), it keeps exactly the ASCII
      characters of the text, in their order. */
  lemma {:induction false} StripNonAsciiAppend(a: string, b: string)
    ensures StripNonAscii(a + b) == StripNonAscii(a) + StripNonAscii(b)
  {
    if a != [] {
      var t, head := a[1..], if IsAscii(a[0]) then [a[0]] else [];
      assert (a + b)[0] == a[0] && (a + b)[1..] == t + b;
      StripNonAsciiAppend(t, b);
      KeptRegroup(head, StripNonAscii(t), StripNonAscii(b));
    } else {
      assert a + b == b;
    }
  }

  lemma KeptRegroup(h: string, x: string, y: string)
    ensures h + (x + y) == (h + x) + y
  {
  }

  /** Decoding with the one fallback: on a decode error, decode again with
      non-ASCII characters removed; an error from the second attempt stands. */
  function Decode(t: string, parse: string -> Parse): Parse {
    match parse(t)
    case Parsed(v) => Parsed(v)
    case DecodeError(_) => parse(StripNonAscii(t))
  }

  /** The message of the `TypeError` that the `medicine_name` check or
      assignment raises on a decoded value that is not an object (CPython 3.12
      wording), or None for an object. */
  function NonObjectError(v: JsonValue): (e: Option<string>)
    ensures e.None? <==> v.JObject?
  {
    match v
    case JObject(_) => None
    case JList(_) => Some("list indices must be integers or slices, not str")
    case JString(s) =>
      // `"medicine_name" in s` is a substring test; when it holds, `s["medicine_name"]` is read
      if Contains(s, "medicine_name") then Some("string indices must be integers, not 'str'")
      else Some("'str' object does not support item assignment")
    case _ => Some("argument of type '" + TypeName(v) + "' is not iterable")
  }

  /** A missing or falsy `medicine_name` is replaced by the name asked about. */
  function WithName(fields: map<string, JsonValue>, name: string): map<string, JsonValue> {
    if "medicine_name" !in fields || !Truthy(fields["medicine_name"]) then fields["medicine_name" := JString(name)]
    else fields
  }

  /** The default for a missing required key. */
  function DefaultFor(key: string): JsonValue {
    if key == "key_benefits" then JList([]) else JString("")
  }

  /** The required keys among the first `n`. */
  function KeysBefore(n: nat): set<string>
    requires n <= |RequiredKeys|
  {
    set j | 0 <= j < n :: RequiredKeys[j]
  }

  /** The record with every missing required key set to its default and
      every present key untouched. */
  function WithDefaults(fields: map<string, JsonValue>): (r: map<string, JsonValue>)
    ensures forall k :: k in RequiredKeys ==> k in r
    ensures "description" in r
  {
    assert RequiredKeys[1] in KeysBefore(|RequiredKeys|);
    map k | k in fields.Keys + KeysBefore(|RequiredKeys|) :: if k in fields then fields[k] else DefaultFor(k)
  }

  /** One more required key. */
  lemma KeysBeforeStep(i: nat)
    requires i < |RequiredKeys|
    ensures KeysBefore(i + 1) == KeysBefore(i) + {RequiredKeys[i]}
  {
  }

  /** The key-filling loop of `extract_medicine_info`. */
  method FillDefaults(fields: map<string, JsonValue>) returns (r: map<string, JsonValue>)
    ensures r == WithDefaults(fields)
  {
    r := fields;
    var i := 0;
    while i < |RequiredKeys|
      invariant 0 <= i <= |RequiredKeys|
      invariant r.Keys == fields.Keys + KeysBefore(i)
      invariant forall k :: k in r ==> r[k] == if k in fields then fields[k] else DefaultFor(k)
    {
      var key := RequiredKeys[i];
      if key !in r {
        if key == "key_benefits" {
          r := r[key := JList([])];
        } else {
          r := r[key := JString("")];
        }
      }
      KeysBeforeStep(i);
      i := i + 1;
    }
  }

  /** The record returned when anything raised. */
  function ErrorRecord(name: string, error: string): map<string, JsonValue> {
    map[
      "medicine_name" := JString(name),
      "description" := JString(ErrorPrefix + error),
      "key_benefits" := JList([]),
      "directions" := JString(""),
      "safety_info" := JString(""),
      "relevant_info" := JString("")
    ]
  }

  /** The record made from the model's reply. */
  function RecordFor(name: string, reply: Reply, parse: string -> Parse): (r: map<string, JsonValue>)
    ensures forall k :: k in RequiredKeys ==> k in r
    ensures "description" in r
  {
    match reply
    case Failed(e) => ErrorRecord(name, e)
    case Replied(text) =>
      match Decode(Escape(JsonText(text)), parse)
      case DecodeError(e) => ErrorRecord(name, e)
      case Parsed(v) =>
        if v.JObject? then WithDefaults(WithName(v.fields, name))
        else ErrorRecord(name, NonObjectError(v).value)
  }

  /** The record `extract_medicine_info` returns; `backend` stands for the
      model call on a prompt built from the name and the page excerpt. */
  function MedicineInfo(markdown: string, name: string, backend: (string, string) -> Reply, parse: string -> Parse)
    : (r: map<string, JsonValue>)
    ensures forall k :: k in RequiredKeys ==> k in r
    ensures "description" in r
  {
    RecordFor(name, backend(name, Excerpt(markdown)), parse)
  }

  /** `extract_medicine_info` */
  method ExtractMedicineInfo(markdown: string, name: string, backend: (string, string) -> Reply, parse: string -> Parse)
    returns (result: map<string, JsonValue>)
    ensures result == MedicineInfo(markdown, name, backend, parse)
  {
    var reply := backend(name, Excerpt(markdown));
    assert MedicineInfo(markdown, name, backend, parse) == RecordFor(name, reply, parse);
    if reply.Failed? {
      return ErrorRecord(name, reply.error);
    }
    var jsonText := Escape(JsonText(reply.text));
    var parsed := parse(jsonText);
    if parsed.DecodeError? {
      parsed := parse(StripNonAscii(jsonText));
    }
    assert parsed == Decode(jsonText, parse);
    if parsed.DecodeError? {
      return ErrorRecord(name, parsed.error);
    }
    var v := parsed.value;
    var error := NonObjectError(v);
    if error.Some? {
      return ErrorRecord(name, error.value);
    }
    var fields := WithName(v.fields, name);
    result := FillDefaults(fields);
  }

  /** The error record: the name asked about, the message after the fixed
      prefix, and every other field empty. */
  predicate IsErrorRecord(r: map<string, JsonValue>, name: string) {
    && r.Keys == {"medicine_name", "description", "key_benefits", "directions", "safety_info", "relevant_info"}
    && r["medicine_name"] == JString(name)
    && r["description"].JString? && |r["description"].s| >= |ErrorPrefix|
    && r["description"].s[..|ErrorPrefix|] == ErrorPrefix
    && r["key_benefits"] == JList([])
    && r["directions"] == JString("") && r["safety_info"] == JString("") && r["relevant_info"] == JString("")
  }

  lemma ErrorRecordSpec(name: string, error: string)
    ensures IsErrorRecord(ErrorRecord(name, error), name)
    ensures ErrorRecord(name, error)["description"] == JString(ErrorPrefix + error)
  {
    var r := ErrorRecord(name, error);
    assert r["description"].s[..|ErrorPrefix|] == ErrorPrefix;
  }

  lemma RequiredKeysListed()
    ensures KeysBefore(|RequiredKeys|) ==
      {"medicine_name", "description", "key_benefits", "directions", "safety_info", "relevant_info"}
  {
    var keys := KeysBefore(|RequiredKeys|);
    assert RequiredKeys[0] in keys && RequiredKeys[1] in keys && RequiredKeys[2] in keys;
    assert RequiredKeys[3] in keys && RequiredKeys[4] in keys && RequiredKeys[5] in keys;
  }

  /** On a decoded object, keys the model supplied are kept, except a falsy
      `medicine_name`, which becomes the name asked about; a missing
      `key_benefits` becomes [] and any other missing required key "". */
  lemma ObjectRecordSpec(fields: map<string, JsonValue>, name: string)
    ensures var r := WithDefaults(WithName(fields, name));
      && r.Keys == fields.Keys + {"medicine_name", "description", "key_benefits", "directions", "safety_info", "relevant_info"}
      && (forall k :: k in fields && k != "medicine_name" ==> r[k] == fields[k])
      && r["medicine_name"] == (if "medicine_name" in fields && Truthy(fields["medicine_name"])
                                then fields["medicine_name"] else JString(name))
      && ("key_benefits" !in fields ==> r["key_benefits"] == JList([]))
      && (forall k :: k in RequiredKeys && k != "key_benefits" && k != "medicine_name" && k !in fields ==>
            r[k] == JString(""))
  {
    RequiredKeysListed();
  }

  /** Every record holds the six required keys. A reply that decodes to an
      object gives the filled-in object; whatever fails gives the error
      record carrying the message. */
  lemma MedicineInfoSpec(markdown: string, name: string, backend: (string, string) -> Reply, parse: string -> Parse)
    ensures forall k :: k in RequiredKeys ==> k in MedicineInfo(markdown, name, backend, parse)
    ensures var r := MedicineInfo(markdown, name, backend, parse);
      match backend(name, Excerpt(markdown))
      case Failed(e) => IsErrorRecord(r, name) && r["description"] == JString(ErrorPrefix + e)
      case Replied(text) =>
        match Decode(Escape(JsonText(text)), parse)
        case DecodeError(e) => IsErrorRecord(r, name) && r["description"] == JString(ErrorPrefix + e)
        case Parsed(v) =>
          if v.JObject? then r == WithDefaults(WithName(v.fields, name))
          else IsErrorRecord(r, name) && r["description"] == JString(ErrorPrefix + NonObjectError(v).value)
  {
    match backend(name, Excerpt(markdown))
    case Failed(e) => ErrorRecordSpec(name, e);
    case Replied(text) =>
      match Decode(Escape(JsonText(text)), parse)
      case DecodeError(e) => ErrorRecordSpec(name, e);
      case Parsed(v) =>
        if !v.JObject? {
          ErrorRecordSpec(name, NonObjectError(v).value);
        }
  }

  /** The model sees only the first `ContentBudget` characters: pages that
      agree on them give the same record. */
  lemma OnlyExcerptMatters(a: string, b: string, name: string, backend: (string, string) -> Reply, parse: string -> Parse)
    requires |a| >= ContentBudget && |b| >= ContentBudget && a[..ContentBudget] == b[..ContentBudget]
    ensures MedicineInfo(a, name, backend, parse) == MedicineInfo(b, name, backend, parse)
  {
    assert Excerpt(a) == Excerpt(b);
  }

  /** A reply fenced as "```json" ... "```" around text without backticks is
      decoded from that text, stripped. */
  lemma FencedJsonReply(body: string)
    requires '`' !in body
    ensures JsonText(JsonFence + body + Fence) == Strip(body)
  {
    OpeningFenceFirst(body);
    NoJsonFenceAfter(body);
    BeforeMissing(body + Fence, JsonFence);
    ClosingFenceFirst(body);
  }

  /** The opening "```json" is the first one, and what follows it is the body
      and the closing fence. */
  lemma OpeningFenceFirst(body: string)
    ensures Contains(JsonFence + body + Fence, JsonFence)
    ensures After(JsonFence + body + Fence, JsonFence) == body + Fence
  {
    var text := JsonFence + body + Fence;
    assert OccursAt(text, JsonFence, 0);
    assert Contains(text, JsonFence);
    var rest := After(text, JsonFence);
    assert |text| - |rest| - |JsonFence| == 0;
    assert text[|JsonFence|..] == body + Fence;
  }

  /** A body without backticks followed by "```" holds no "```json". */
  lemma NoJsonFenceAfter(body: string)
    requires '`' !in body
    ensures !Contains(body + Fence, JsonFence)
  {
    var rest := body + Fence;
    forall k | 0 <= k < |body|
      ensures rest[k] != '`'
    {
      assert rest[k] == body[k];
    }
    forall j: nat
      ensures !OccursAt(rest, JsonFence, j)
    {
      OccursAtFirst(rest, JsonFence, j);
    }
  }

  /** In a body without backticks followed by "```", the text before the
      first fence is the body. */
  lemma ClosingFenceFirst(body: string)
    requires '`' !in body
    ensures Before(body + Fence, Fence) == body
  {
    var rest := body + Fence;
    forall k | 0 <= k < |body|
      ensures rest[k] != '`'
    {
      assert rest[k] == body[k];
    }
    var r := Before(rest, Fence);
    assert OccursAt(rest, Fence, |body|);
    OccursAtFirst(rest, Fence, |r|);
    assert rest[..|body|] == body;
  }

  /** One call of a function under an exponential-backoff retry policy. */
  datatype Attempt<T> = Returned(value: T) | Threw(error: string)

  /** The outcome of retrying `call` from attempt `k` on, at most `maxTries`
      attempts in all, and the number of attempts made. Only an exception
      triggers another attempt; the waits between attempts are not modelled. */
  function Backoff<T>(call: nat -> Attempt<T>, maxTries: nat, k: nat): (r: (Attempt<T>, nat))
    requires k < maxTries
    decreases maxTries - k
    ensures k < r.1 <= maxTries
    ensures r.0.Threw? ==> r.1 == maxTries
    ensures r.0.Returned? ==> r.0 == call(r.1 - 1)
  {
    match call(k)
    case Returned(v) => (Returned(v), k + 1)
    case Threw(e) => if k + 1 < maxTries then Backoff(call, maxTries, k + 1) else (Threw(e), k + 1)
  }

  /** The decorator on `extract_medicine_info` allows three attempts, but the
      function catches every exception itself, so exactly one attempt is made
      and its record is the result. */
  lemma NeverRetries(markdown: string, name: string, backend: (string, string) -> Reply, parse: string -> Parse)
    ensures Backoff((k: nat) => Returned(MedicineInfo(markdown, name, backend, parse)), 3, 0)
         == (Returned(MedicineInfo(markdown, name, backend, parse)), 1)
  {
  }
}
