/** `load_image`, `extract_prescription_information` and
    `extract_medicine_names`: the image goes to the language model, its reply
    is cleaned and decoded, and the medicines are reduced to a dictionary from
    cleaned name to dosing schedule. */
module Prescription {
  import opened Wrappers
  import opened Text
  import opened Json
  import opened PyDict
  import opened PrescriptionUtil

  // ---------------------------------------------------------------------
  // load_image

  /** What is sent to the model: the MIME type and the bytes of the file. */
  datatype ImageData = ImageData(mimeType: string, data: seq<bv8>)

  /** `load_image`: `file` is the content of the file at `path`, `None` when
      there is no such file. */
  function LoadImage(path: string, file: Option<seq<bv8>>): (r: Result<ImageData>)
    ensures r.Err? <==> file.None?
    ensures r.Ok? ==> r.value.data == file.value
  {
    match file
    case None => Err("Could not find image: " + path)
    case Some(bytes) => Ok(ImageData(MimeType(FileName(path)), bytes))
  }

  /** The image sent is always JPEG, PNG or WebP, whatever the case of its
      name, and the directory part of the path plays no part in the choice. */
  lemma LoadImageSpec(path: string, file: Option<seq<bv8>>)
    requires file.Some?
    ensures var m := LoadImage(path, file).value.mimeType;
      && (m == "image/jpeg" || m == "image/png" || m == "image/webp")
      && m == MimeType(Lower(FileName(path)))
      && forall dir :: FileName(path) != "" ==> LoadImage(dir + "/" + FileName(path), file) == LoadImage(path, file)
  {
    MimeTypeIgnoresCase(FileName(path));
    FileNameSpec(path);
    forall dir | FileName(path) != ""
      ensures LoadImage(dir + "/" + FileName(path), file) == LoadImage(path, file)
    {
      FileNameAfterSlash(dir, FileName(path));
    }
  }

  // ---------------------------------------------------------------------
  // The medicine list of the decoded reply

  /** The simplified form of one medicine. */
  datatype MedEntry = MedEntry(schedule: Schedule, instructions: JsonValue)

  /** What the loop body does with one element of the medicine list: raise
      (the whole extraction then yields `{}`), skip it, or store an entry. */
  datatype Step = Invalid | Skip | Keep(name: string, entry: MedEntry)

  /** `get_timing_text` on whatever the `timing` field holds: a falsy value
      gives the empty schedule, a truthy value that is not a string has no
      `split` and raises. */
  function TimingOf(v: JsonValue): (r: Result<Schedule>)
    ensures !Truthy(v) ==> r == Ok(NoSchedule)
    ensures r.Err? <==> Truthy(v) && !v.JString?
    ensures v.JString? ==> r == Ok(TimingSchedule(v.s))
  {
    match v
    case JString(s) => Ok(TimingSchedule(s))
    case _ => if Truthy(v) then Err("'" + TypeName(v) + "' object has no attribute 'split'") else Ok(NoSchedule)
  }

  /** One pass of the loop over the medicine list. */
  function ItemStep(item: JsonValue): Step {
    match item
    case JObject(m) =>
      var fullName := GetOr(m, "full_name", JString(""));
      if !fullName.JString? then Invalid
      else
        var name := MedicineName(fullName.s);
        (match TimingOf(GetOr(m, "timing", JString("")))
         case Err(_) => Invalid
         case Ok(schedule) =>
           if name == [] then Skip
           else Keep(name, MedEntry(schedule, GetOr(m, "special_instructions", JString("")))))
    case _ => Invalid
  }

  /** Every stored name is a clean name. */
  lemma ItemStepKey(item: JsonValue)
    ensures ItemStep(item).Keep? ==> CleanName(ItemStep(item).name)
  {
    ItemStepSpec(item);
    if ItemStep(item).Keep? {
      MedicineNameClean(GetOr(item.fields, "full_name", JString("")).s);
    }
  }

  /** An element is dropped without error exactly when it is an object whose
      full name is a string that cleans to nothing and whose timing is a
      string or falsy. */
  lemma ItemStepSpec(item: JsonValue)
    ensures ItemStep(item).Invalid? <==>
      || !item.JObject?
      || !GetOr(item.fields, "full_name", JString("")).JString?
      || TimingOf(GetOr(item.fields, "timing", JString(""))).Err?
    ensures ItemStep(item).Skip? <==>
      && item.JObject?
      && GetOr(item.fields, "full_name", JString("")).JString?
      && TimingOf(GetOr(item.fields, "timing", JString(""))).Ok?
      && MedicineName(GetOr(item.fields, "full_name", JString("")).s) == []
    ensures ItemStep(item).Keep? ==>
      && ItemStep(item).name == MedicineName(GetOr(item.fields, "full_name", JString("")).s)
      && ItemStep(item).entry.schedule == TimingOf(GetOr(item.fields, "timing", JString(""))).value
      && ItemStep(item).entry.instructions == GetOr(item.fields, "special_instructions", JString(""))
  {
  }

  /** `data.get("medicines", [])` iterated: a list gives its elements; an
      empty string or object gives none; a non-empty string or object gives
      elements without `get`, and anything else is not iterable. */
  function MedicineItems(v: JsonValue): (r: Option<seq<JsonValue>>)
    ensures v.JList? ==> r == Some(v.items)
    ensures r.Some? && !v.JList? ==> r == Some([]) && !Truthy(v)
    ensures r.Some? <==> v.JList? || v == JString([]) || v == JObject(map[])
  {
    match v
    case JList(items) => Some(items)
    case JString(s) => if s == [] then Some([]) else None
    case JObject(m) => if |m| == 0 then Some([]) else None
    case _ => None
  }

  /** What the loop body does with each element, in order. */
  function Steps(items: seq<JsonValue>): (r: seq<Step>)
    ensures |r| == |items|
  {
    seq(|items|, i requires 0 <= i < |items| => ItemStep(items[i]))
  }

  /** The dictionary the loop builds from a run of loop-body outcomes, or
      `None` once one of them raised. */
  function Fold(steps: seq<Step>): (r: Option<Dict<string, MedEntry>>)
    decreases |steps|
    ensures r.Some? ==> Valid(r.value) && |r.value.entries| <= |steps|
  {
    if steps == [] then
      var empty: Dict<string, MedEntry> := Dict([]);
      Some(empty)
    else
      match Fold(steps[..|steps| - 1])
      case None => None
      case Some(d) =>
        match steps[|steps| - 1]
        case Invalid => None
        case Skip => Some(d)
        case Keep(name, entry) => Some(Put(d, name, entry))
  }

  /** The medicine dictionary built from the list, or `None` when an element
      raised (the caller then returns `{}`). */
  function Simplified(items: seq<JsonValue>): (r: Option<Dict<string, MedEntry>>)
    ensures r.Some? ==> Valid(r.value) && |r.value.entries| <= |items|
  {
    Fold(Steps(items))
  }

  /** Once the loop raised, the longer run raises too. */
  lemma {:induction false} FoldStaysFailed(steps: seq<Step>, n: nat)
    requires n <= |steps| && Fold(steps[..n]).None?
    decreases |steps| - n
    ensures Fold(steps).None?
  {
    if n < |steps| {
      assert steps[..n + 1][..n] == steps[..n];
      FoldStaysFailed(steps, n + 1);
    } else {
      assert steps[..n] == steps;
    }
  }

  /** One more outcome folded in. */
  lemma FoldNext(steps: seq<Step>, i: nat)
    requires i < |steps| && Fold(steps[..i]).Some?
    ensures steps[i].Invalid? ==> Fold(steps[..i + 1]).None?
    ensures steps[i].Skip? ==> Fold(steps[..i + 1]) == Fold(steps[..i])
    ensures steps[i].Keep? ==> Fold(steps[..i + 1]) == Some(Put(Fold(steps[..i]).value, steps[i].name, steps[i].entry))
  {
    assert steps[..i + 1][..i] == steps[..i];
  }

  /** The loop of `extract_prescription_information` over the medicine list. */
  method SimplifyMedicines(items: seq<JsonValue>) returns (r: Option<Dict<string, MedEntry>>)
    ensures r == Simplified(items)
  {
    ghost var steps := Steps(items);
    var meds: Dict<string, MedEntry> := Dict([]);
    assert steps[..0] == [];
    var i := 0;
    while i < |items|
      invariant 0 <= i <= |items|
      invariant Fold(steps[..i]) == Some(meds)
    {
      var step := ItemStep(items[i]);
      assert step == steps[i];
      FoldNext(steps, i);
      if step.Invalid? {
        FoldStaysFailed(steps, i + 1);
        return None;
      }
      if step.Keep? {
        meds := Put(meds, step.name, step.entry);
      }
      i := i + 1;
    }
    assert steps[..i] == steps;
    r := Some(meds);
  }

  /** The fold yields nothing exactly when some outcome is a raise. */
  lemma {:induction false} FoldFails(steps: seq<Step>)
    ensures Fold(steps).None? <==> exists j :: 0 <= j < |steps| && steps[j].Invalid?
  {
    if steps != [] {
      FoldFails(steps[..|steps| - 1]);
      InvalidSplit(steps);
    }
  }

  /** Some outcome is a raise exactly when one before the last is, or the
      last is. */
  lemma InvalidSplit(steps: seq<Step>)
    requires steps != []
    ensures var init := steps[..|steps| - 1];
      (exists j :: 0 <= j < |steps| && steps[j].Invalid?) <==>
      (exists j :: 0 <= j < |init| && init[j].Invalid?) || steps[|steps| - 1].Invalid?
  {
    var init := steps[..|steps| - 1];
    if exists j :: 0 <= j < |init| && init[j].Invalid? {
      var j :| 0 <= j < |init| && init[j].Invalid?;
      assert steps[j] == init[j];
    }
    if exists j :: 0 <= j < |steps| && steps[j].Invalid? {
      var j :| 0 <= j < |steps| && steps[j].Invalid?;
      if j < |init| {
        assert init[j] == steps[j];
      }
    }
  }

  /** The loop yields nothing exactly when some element raises. */
  lemma SimplifiedFails(items: seq<JsonValue>)
    ensures Simplified(items).None? <==> exists j :: 0 <= j < |items| && ItemStep(items[j]).Invalid?
  {
    var steps := Steps(items);
    FoldFails(steps);
    assert forall j :: 0 <= j < |items| ==> steps[j] == ItemStep(items[j]);
  }

  /** Keys of a fold over outcomes that store only clean names are clean. */
  lemma {:induction false} FoldKeys(steps: seq<Step>)
    requires Fold(steps).Some?
    requires forall j :: 0 <= j < |steps| && steps[j].Keep? ==> CleanName(steps[j].name)
    ensures forall k :: k in Keys(Fold(steps).value) ==> CleanName(k)
  {
    if steps != [] {
      var init := steps[..|steps| - 1];
      assert forall j :: 0 <= j < |init| ==> init[j] == steps[j];
      FoldKeys(init);
    }
  }

  /** Every key of the simplified dictionary is a clean name. */
  lemma SimplifiedKeys(items: seq<JsonValue>)
    requires Simplified(items).Some?
    ensures forall k :: k in Keys(Simplified(items).value) ==> CleanName(k)
  {
    var steps := Steps(items);
    forall j | 0 <= j < |steps| && steps[j].Keep?
      ensures CleanName(steps[j].name)
    {
      ItemStepKey(items[j]);
    }
    FoldKeys(steps);
  }

  /** The entry of the last outcome that stores `name`, if any. */
  function LastEntry(steps: seq<Step>, name: string): (r: Option<MedEntry>)
    decreases |steps|
  {
    if steps == [] then None
    else
      match steps[|steps| - 1]
      case Keep(n, e) => if n == name then Some(e) else LastEntry(steps[..|steps| - 1], name)
      case _ => LastEntry(steps[..|steps| - 1], name)
  }

  /** Each name holds the entry of the last element naming it: later
      duplicates overwrite earlier ones. */
  lemma {:induction false} FoldLastWins(steps: seq<Step>, name: string)
    requires Fold(steps).Some?
    ensures Get(Fold(steps).value, name) == LastEntry(steps, name)
  {
    if steps != [] {
      var init := steps[..|steps| - 1];
      FoldLastWins(init, name);
      match steps[|steps| - 1] {
        case Keep(n, e) => PutOthers(Fold(init).value, n, e);
        case _ =>
      }
    }
  }

  /** The stored names in order of first appearance. */
  function FirstSeen(steps: seq<Step>): (r: seq<string>)
    decreases |steps|
  {
    if steps == [] then []
    else
      var seen := FirstSeen(steps[..|steps| - 1]);
      match steps[|steps| - 1]
      case Keep(n, _) => if n in seen then seen else seen + [n]
      case _ => seen
  }

  /** The dictionary lists each stored name once, at its first appearance. */
  lemma {:induction false} FoldOrder(steps: seq<Step>)
    requires Fold(steps).Some?
    ensures Keys(Fold(steps).value) == FirstSeen(steps)
  {
    if steps != [] {
      var init := steps[..|steps| - 1];
      FoldOrder(init);
      match steps[|steps| - 1] {
        case Keep(n, e) => PutKeys(Fold(init).value, n, e);
        case _ =>
      }
    }
  }

  // ---------------------------------------------------------------------
  // extract_prescription_information

  /** The simplified prescription. */
  datatype Prescription = Prescription(patientInfo: JsonValue, doctorInfo: JsonValue, medicines: Dict<string, MedEntry>)

  /** The result of `extract_prescription_information`: the simplified
      prescription, the empty dictionary every caught error leads to, or an
      exception that leaves the function. */
  datatype Extraction = Extracted(prescription: Prescription) | Empty | Escaped(error: string)

  /** The model call: its reply text, an error raised by the call, or an
      error raised on reading `response.text`. */
  datatype ModelReply = Answered(text: string) | CallFailed(error: string) | TextFailed(error: string)

  /** The decoded reply reduced to the prescription. */
  function FromData(data: JsonValue): (r: Extraction)
    ensures !data.JObject? ==> r == Empty
    ensures r.Extracted? ==> r.prescription.patientInfo == GetOr(data.fields, "patient_info", JObject(map[]))
    ensures r.Extracted? ==> r.prescription.doctorInfo == GetOr(data.fields, "doctor_info", JObject(map[]))
    ensures r.Extracted? ==>
      && data.JObject?
      && MedicineItems(GetOr(data.fields, "medicines", JList([]))).Some?
      && Simplified(MedicineItems(GetOr(data.fields, "medicines", JList([]))).value) == Some(r.prescription.medicines)
    ensures (&& data.JObject?
             && MedicineItems(GetOr(data.fields, "medicines", JList([]))).Some?
             && Simplified(MedicineItems(GetOr(data.fields, "medicines", JList([]))).value).Some?) ==> r.Extracted?
  {
    match data
    case JObject(m) =>
      (match MedicineItems(GetOr(m, "medicines", JList([])))
       case None => Empty
       case Some(items) =>
         match Simplified(items)
         case None => Empty
         case Some(meds) =>
           Extracted(Prescription(GetOr(m, "patient_info", JObject(map[])), GetOr(m, "doctor_info", JObject(map[])), meds)))
    case _ => Empty
  }

  /** The reply text cleaned, decoded and reduced. */
  function FromReply(text: string, parse: string -> Parse): (r: Extraction)
    ensures !r.Escaped?
  {
    match parse(CleanGeminiResponse(text))
    case DecodeError(_) => Empty
    case Parsed(data) => FromData(data)
  }

  /** `extract_prescription_information`: `model` stands for the model call on
      the loaded image and `parse` for `json.loads`. */
  function PrescriptionOf(path: string, file: Option<seq<bv8>>, model: ImageData -> ModelReply, parse: string -> Parse): (r: Extraction)
    ensures file.None? ==> r == Escaped("Could not find image: " + path)
  {
    match LoadImage(path, file)
    case Err(e) => Escaped(e)
    case Ok(image) =>
      match model(image)
      case CallFailed(_) => Empty
      case TextFailed(e) => Escaped(e)
      case Answered(text) => FromReply(text, parse)
  }

  /** `extract_prescription_information`, running the medicine loop. */
  method ExtractPrescriptionInformation(path: string, file: Option<seq<bv8>>, model: ImageData -> ModelReply, parse: string -> Parse)
    returns (result: Extraction)
    ensures result == PrescriptionOf(path, file, model, parse)
  {
    var loaded := LoadImage(path, file);
    if loaded.Err? {
      return Escaped(loaded.error);
    }
    var reply := model(loaded.value);
    if reply.CallFailed? {
      return Empty;
    }
    if reply.TextFailed? {
      return Escaped(reply.error);
    }
    result := DecodeReply(reply.text, parse);
  }

  /** The part of `extract_prescription_information` after the reply text is
      read: clean it, decode it and run the medicine loop. */
  method DecodeReply(text: string, parse: string -> Parse) returns (result: Extraction)
    ensures result == FromReply(text, parse)
  {
    var parsed := parse(CleanGeminiResponse(text));
    if parsed.DecodeError? {
      return Empty;
    }
    result := ReduceData(parsed.value);
  }

  /** The decoded reply reduced to the prescription, running the medicine loop. */
  method ReduceData(data: JsonValue) returns (result: Extraction)
    ensures result == FromData(data)
  {
    if !data.JObject? {
      return Empty;
    }
    var m := data.fields;
    var items := MedicineItems(GetOr(m, "medicines", JList([])));
    if items.None? {
      return Empty;
    }
    var meds := SimplifyMedicines(items.value);
    if meds.None? {
      return Empty;
    }
    result := Extracted(Prescription(GetOr(m, "patient_info", JObject(map[])), GetOr(m, "doctor_info", JObject(map[])), meds.value));
  }

  /** Which failures are caught and which escape: a missing file and a reply
      whose text cannot be read raise out of the function; a failed call, a
      reply that is not JSON, or JSON that is not an object give `{}`. */
  lemma ExtractionFailures(path: string, file: Option<seq<bv8>>, model: ImageData -> ModelReply, parse: string -> Parse)
    requires file.Some?
    ensures var image := LoadImage(path, file).value;
      && (model(image).CallFailed? ==> PrescriptionOf(path, file, model, parse) == Empty)
      && (model(image).TextFailed? ==> PrescriptionOf(path, file, model, parse) == Escaped(model(image).error))
      && (model(image).Answered? && parse(CleanGeminiResponse(model(image).text)).DecodeError? ==>
            PrescriptionOf(path, file, model, parse) == Empty)
  {
  }

  /** The image was found, the call answered, the cleaned reply decoded to
      an object, its "medicines" value can be iterated and every element
      has the `get` the loop calls. */
  predicate ReplySimplifies(path: string, file: Option<seq<bv8>>, model: ImageData -> ModelReply, parse: string -> Parse) {
    && file.Some?
    && var image := LoadImage(path, file).value;
    && model(image).Answered?
    && var data := parse(CleanGeminiResponse(model(image).text));
    && data.Parsed? && data.value.JObject?
    && var items := MedicineItems(GetOr(data.value.fields, "medicines", JList([])));
    && items.Some?
    && Simplified(items.value).Some?
  }

  /** The extraction succeeds exactly when the reply simplifies, and then
      holds exactly the simplified medicine list of the decoded object. */
  lemma ExtractedSpec(path: string, file: Option<seq<bv8>>, model: ImageData -> ModelReply, parse: string -> Parse)
    ensures PrescriptionOf(path, file, model, parse).Extracted? <==> ReplySimplifies(path, file, model, parse)
    ensures PrescriptionOf(path, file, model, parse).Extracted? ==>
      var image := LoadImage(path, file).value;
      var data := parse(CleanGeminiResponse(model(image).text));
      var items := MedicineItems(GetOr(data.value.fields, "medicines", JList([])));
      Simplified(items.value) == Some(PrescriptionOf(path, file, model, parse).prescription.medicines)
  {
  }

  /** A reply wrapped in a JSON code block is read as its body. */
  lemma FencedAnswer(body: string, parse: string -> Parse)
    requires '`' !in body
    ensures FromReply(Fenced(body), parse) == FromReply(Strip(body), parse)
  {
    FencedLikeBody(body);
  }

  // ---------------------------------------------------------------------
  // extract_medicine_names

  /** `extract_medicine_names`: the keys of the medicine dictionary, `[]`
      when the extraction gave `{}`, or the exception that escaped it. */
  function MedicineNames(path: string, file: Option<seq<bv8>>, model: ImageData -> ModelReply, parse: string -> Parse): (r: Result<seq<string>>)
  {
    match PrescriptionOf(path, file, model, parse)
    case Extracted(p) => Ok(Keys(p.medicines))
    case Empty => Ok([])
    case Escaped(e) => Err(e)
  }

  /** The names returned are distinct clean names, in order of first
      appearance in the reply; an exception raised by the extraction is
      passed on and every caught failure gives the empty list. */
  lemma MedicineNamesSpec(path: string, file: Option<seq<bv8>>, model: ImageData -> ModelReply, parse: string -> Parse)
    ensures var r := MedicineNames(path, file, model, parse);
      && (r.Ok? ==> forall i, j :: 0 <= i < j < |r.value| ==> r.value[i] != r.value[j])
      && (r.Ok? ==> forall k :: k in r.value ==> CleanName(k))
      && (r.Err? <==> PrescriptionOf(path, file, model, parse).Escaped?)
      && (PrescriptionOf(path, file, model, parse) == Empty ==> r == Ok([]))
  {
    var x := PrescriptionOf(path, file, model, parse);
    if x.Extracted? {
      ExtractedSpec(path, file, model, parse);
      var image := LoadImage(path, file).value;
      var data := parse(CleanGeminiResponse(model(image).text)).value;
      SimplifiedNames(MedicineItems(GetOr(data.fields, "medicines", JList([]))).value, x.prescription.medicines);
    }
  }

  /** The keys of a simplified dictionary are distinct clean names. */
  lemma SimplifiedNames(items: seq<JsonValue>, d: Dict<string, MedEntry>)
    requires Simplified(items) == Some(d)
    ensures forall i, j :: 0 <= i < j < |Keys(d)| ==> Keys(d)[i] != Keys(d)[j]
    ensures forall k :: k in Keys(d) ==> CleanName(k)
  {
    SimplifiedKeys(items);
  }

  /** The names come in the order the medicines first appear in the reply. */
  lemma MedicineNamesOrder(path: string, file: Option<seq<bv8>>, model: ImageData -> ModelReply, parse: string -> Parse)
    requires PrescriptionOf(path, file, model, parse).Extracted?
    ensures var image := LoadImage(path, file).value;
      var data := parse(CleanGeminiResponse(model(image).text)).value;
      MedicineNames(path, file, model, parse) == Ok(FirstSeen(Steps(MedicineItems(GetOr(data.fields, "medicines", JList([]))).value)))
  {
    ExtractedSpec(path, file, model, parse);
    var image := LoadImage(path, file).value;
    var data := parse(CleanGeminiResponse(model(image).text)).value;
    FoldOrder(Steps(MedicineItems(GetOr(data.fields, "medicines", JList([]))).value));
  }
}
