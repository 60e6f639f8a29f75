# Medicine prescription analyzer — verified model of the core

This project models, in Dafny, the decision logic of the two Python modules that
do the real work in the medical-prescription analyzer:

- `medicine_info.py`, the medicine-lookup pipeline:
  - the site selector (`select_medication_website`);
  - the spelling-correction handling of the search stage (`search_single_medicine`);
  - the product-name extractor (`extract_medicine_name_from_url`);
  - the HTML-to-Markdown normalizer (`convert_html_to_markdown`);
  - the handling of the language model's reply (`extract_medicine_info`);
  - the per-medicine loop and the final reduction of `process_medicine_list`.
- `prescription_data.py`, the prescription reader:
  - the MIME type chosen in `load_image`;
  - `get_timing_text`, `clean_medicine_name` and `clean_gemini_response`;
  - the simplification loop of `extract_prescription_information`;
  - `extract_medicine_names`.

The browser, the language model, BeautifulSoup/markdownify and `json.loads` are
not modelled as code. Their observable outcomes are inputs:
- the search-results page is a `SearchPage`, a product page a `TitlePage`;
- a cleaned HTML page is an `HtmlPage` with an abstract `render` function;
- the model is a function from prompt data to a reply or an error;
- the JSON decoder is a function from text to `Parse`.

Everything the code decides on top of those outcomes is modelled:
- the domain and selector priorities, and the correction precedence;
- the URL-slug heuristics and the newline collapse;
- the code-fence cutting and escaping;
- the default filling and error records;
- success counting and the last-wins dictionary reduction;
- the timing codes, name cleaning and fence removal;
- the failure paths that return `{}` or raise.

Modules, one per stage:
- `Wrappers`: Option and Result.
- `Text`: the Python `str` operations used.
- `Json`: decoded JSON values, truthiness and hash keys.
- `PyDict`: an insertion-ordered `dict`.
- `SiteSelector`, `SearchStage`, `NameExtractor`, `ContentNormalizer`, `Summarizer`, `Orchestrator`: `medicine_info.py`.
- `PrescriptionUtil` and `Prescription`: `prescription_data.py`.

These loops of the source are methods with loop invariants, each proved equal
to a specification function:
- `SiteSelector.SelectMedicationWebsite` for the domain loop
  (medicine_info.py:56), with `SiteSelector.FirstClickable` for the link loop
  inside it (medicine_info.py:57);
- `SearchStage.ChooseSearchBox` for the selector loop (medicine_info.py:97);
- `ContentNormalizer.ChooseMainContent` for the content-selector and element
  loops (medicine_info.py:240-244);
- `Summarizer.FillDefaults` for the required-keys loop (medicine_info.py:340);
- `Orchestrator.RunBatch` for the batch loop (medicine_info.py:384);
- `Orchestrator.FormatResults` for the formatting loop (medicine_info.py:450);
- `PrescriptionUtil.DropPrefixes` for the prefix loop (prescription_data.py:96);
- `Prescription.SimplifyMedicines` for the medicine loop
  (prescription_data.py:201).

The first-match scan over the URL parts (medicine_info.py:202-204) only reads
its input, so it is the recursive function `NameExtractor.FirstSlugSegment`.
Two loops are left out with the browser and the HTML library they drive: the
keystroke loop that types the query (medicine_info.py:107) and the loop that
removes noise elements from the page (medicine_info.py:221). The properties the
code promises are proved as lemmas about the specification functions.

The model keeps these behaviours of the code, which its docstrings and names
do not suggest:
- The retry decorator on `extract_medicine_info` never fires, although the
  docstring at medicine_info.py:278 speaks of "retry capability". The function
  catches every exception itself and returns an error record on the first
  failure (`Summarizer.NeverRetries`).
- When the search engine offers no readable correction, the name handed on is
  the whole query, including the `" medicine links"` suffix
  (`SearchStage.UncorrectedNameKeepsSuffix`).
- The final mapping is keyed by resolved name, and a later record overwrites an
  earlier one. It can hold fewer entries than there were medicines
  (`Orchestrator.SameNameCollapses`).
- An empty medicine list ends in a division by zero when the success rate is
  reported (`Orchestrator.EmptyListCrashes`).
- In `extract_prescription_information`, a failure when reading
  `response.text` is caught. The handler then reads `response.text` again, so
  the exception leaves the function instead of yielding `{}`
  (`Prescription.ExtractionFailures`).

## Model

| member | source | states |
|---|---|---|
| SiteSelector.FirstFor | medicine_info.py:57-68 | the first result at or after a position whose href contains the domain and whose click succeeds; None exactly when no later result qualifies |
| SiteSelector.PreferredFrom | medicine_info.py:56-68 | the domain the scan settles on, and its first qualifying result; every earlier domain has no qualifying result; None means no domain qualifies |
| SiteSelector.Choice | medicine_info.py:33-81 | the index `select_medication_website` navigates to; stated by `ChoiceSpec` and `PreferenceBeatsPagePosition` |
| SiteSelector.FirstClickable | medicine_info.py:57-68 | the link loop for one domain returns exactly the first result whose href contains the domain and whose click succeeds, and None when there is none |
| SiteSelector.SelectMedicationWebsite | medicine_info.py:30-81 | the nested loop with early return computes exactly the specified choice, including None for an empty page |
| SiteSelector.ChoiceSpec | medicine_info.py:33-81 | a chosen result was clicked; if any result matches any trusted domain, the winner is the first match in page order of the highest domain that matches; with no match, result 0 if its click succeeds, else None; no results gives None |
| SiteSelector.PreferenceBeatsPagePosition | medicine_info.py:56-66 | a later 1mg.com result is chosen over an earlier result from an unknown site |
| SearchStage.SearchTerm | medicine_info.py:389 | the query is the medicine name followed by the fixed suffix |
| SearchStage.CorrectedName | medicine_info.py:118-141 | the name handed on after the correction checks; its precedence is stated by `CorrectionPrecedence` |
| SearchStage.SelectedUrl | medicine_info.py:143-153 | the landing address of the chosen result; stated by `SelectedUrlSpec` |
| SearchStage.Search | medicine_info.py:83-153 | the corrected name and the address that `search_single_medicine` returns; `SearchSingleMedicine` is proved equal to it |
| SearchStage.ChooseSearchBox | medicine_info.py:95-112 | the query goes into the first visible search input, or into none when none is visible |
| SearchStage.SearchSingleMedicine | medicine_info.py:83-153 | the method's corrected name and address equal the specification of the search stage |
| SearchStage.CorrectionPrecedence | medicine_info.py:118-141 | a readable "Showing results for" term wins over a readable "Did you mean" term, which wins over the query; an unreadable affordance counts as absent |
| SearchStage.UncorrectedNameKeepsSuffix | medicine_info.py:118-141 | with no readable correction, the name handed on is name + " medicine links", never the bare name |
| SearchStage.SelectedUrlSpec | medicine_info.py:145-153 | a reported address is the non-empty landing address of the result the selector chose and clicked; a chosen result with a non-empty landing address is always reported, one with an empty address gives none, and no choice gives no address |
| SearchStage.DidYouMeanExample | medicine_info.py:121-131 | a "Did you mean" suggestion replaces the misspelled query |
| NameExtractor.SiteOf | medicine_info.py:159-193 | the pharmacy whose title selectors apply is the first of the four domains, in dispatch order, that the address mentions |
| NameExtractor.FirstSlugStart | medicine_info.py:168 | the search settles on the leftmost "/medicine/" followed by a character other than '?'; None exactly when there is no such occurrence |
| NameExtractor.MedicineSlugFrom | medicine_info.py:168-170 | the slug is a non-empty run without '?' |
| NameExtractor.MedicineSlugFromSpec | medicine_info.py:168-170 | the slug starts right after the leftmost "/medicine/" that a character other than '?' follows, and runs up to the next '?' or the end of the address; there is none exactly when no such occurrence exists |
| NameExtractor.RemoveDosageFrom | medicine_info.py:173 | deleting dosages and a trailing pack size introduces no character; what is deleted and what is kept is stated by `DosageDropped`, `PackSizeDropped`, `DigitsKept` and `DigitFreeDosage` |
| NameExtractor.DigitFreeDosage | medicine_info.py:173 | a stretch without digits is copied unchanged by the dosage removal |
| NameExtractor.DosageDropped | medicine_info.py:173 | digits followed by "mg" are deleted wherever they stand |
| NameExtractor.PackSizeDropped | medicine_info.py:173 | digits, optional whitespace and a final 's' (optionally followed by one newline) are deleted, leaving only that newline |
| NameExtractor.DigitsKept | medicine_info.py:173 | the digits of a number that is neither directly followed by "mg" nor a trailing pack size are copied |
| NameExtractor.ApolloName | medicine_info.py:168-175 | the name built from an Apollo slug; stated by `ApolloNameClean`, `ApolloNameOfDosedSlug` and `ApolloNameOfTabletSlug` |
| NameExtractor.ApolloNameOfTabletSlug | medicine_info.py:168-175 | a slug "<word>-<digits>mg-tablet" of a lower-case word without "tablet" names the title-cased word: the dosage and "tablet" are both deleted, so "dolo-650mg-tablet" gives "Dolo" |
| NameExtractor.DosedMiddleKept | medicine_info.py:173 | digit-free text around one "<digits>mg" dosage loses exactly the dosage |
| NameExtractor.ApolloNameOfDosedSlug | medicine_info.py:168-175 | a slug "<word>-<digits>mg" of a lower-case word without "tablet" names the title-cased word, so "dolo-650mg" gives "Dolo" |
| NameExtractor.FirstSlugSegment | medicine_info.py:202-204 | the first path segment longer than 3 characters that has a '-' and no '?'; None when no segment qualifies |
| NameExtractor.ApolloNameClean | medicine_info.py:168-175 | the Apollo slug fallback never yields a '-' or a '?' |
| NameExtractor.SegmentNameSpec | medicine_info.py:200-206 | the generic fallback title-cases the first qualifying segment with hyphens made spaces, so it has no '-' or '?'; None exactly when no segment qualifies |
| NameExtractor.SegmentName | medicine_info.py:200-206 | the name built from the first accepted path segment; stated by `SegmentNameSpec` |
| NameExtractor.ExtractMedicineNameFromUrl | medicine_info.py:155-209 | the name read from the product page or address; stated by `DispatchSpec` and `AddressNamesClean` |
| NameExtractor.AddressNamesClean | medicine_info.py:155-209 | whenever the name is read from the address rather than the page, it holds neither '-' nor '?' |
| NameExtractor.DispatchSpec | medicine_info.py:157-198 | on a known pharmacy a visible title wins (stripped) and a raising locator gives None; an unknown site goes straight to the generic h1 and address fallbacks |
| ContentNormalizer.FirstLong | medicine_info.py:244-247 | the first element whose stripped text is longer than 200 characters; None when no element is |
| ContentNormalizer.MainRegionFrom | medicine_info.py:240-253 | the first selector, in list order, that has a long element wins with its first long element; the body is used only when no selector has one |
| ContentNormalizer.MainRegion | medicine_info.py:240-253 | the region converted: the first long element of the first selector that has one, else the body; stated by `MainRegionFrom` |
| ContentNormalizer.ChooseMainContent | medicine_info.py:224-253 | the selector scan computes exactly the specified main region |
| ContentNormalizer.CollapseFromNoTriple | medicine_info.py:260 | after the collapse no three newlines remain in a row |
| ContentNormalizer.CollapseFromKeepsText | medicine_info.py:260 | the collapse deletes newlines only; all other text is unchanged and in order |
| ContentNormalizer.CollapseFromFixesClean | medicine_info.py:260 | text without three newlines in a row is left unchanged |
| ContentNormalizer.CollapseRun | medicine_info.py:260 | a run of three or more newlines becomes exactly two; a shorter run is kept |
| ContentNormalizer.CollapseAppend | medicine_info.py:260 | text split where no newline run is cut collapses piece by piece |
| ContentNormalizer.CollapseRunBetween | medicine_info.py:260 | a run of n newlines between text not ending and text not starting with a newline becomes "\n\n" when n is at least 3 and stays otherwise, and the text on either side is collapsed on its own |
| ContentNormalizer.CollapseSpec | medicine_info.py:260 | after the collapse no three newlines remain in a row, all text other than newlines is kept in order, clean text is unchanged, and collapsing twice is collapsing once |
| ContentNormalizer.CollapseExample | medicine_info.py:260 | four newlines between paragraphs become exactly two |
| ContentNormalizer.CollapseNewlines | medicine_info.py:260 | `re.sub(r'\n{3,}', '\n\n', …)`; stated by `CollapseRunBetween`, `CollapseAppend` and `CollapseSpec` |
| ContentNormalizer.ConvertHtmlToMarkdown | medicine_info.py:211-269 | the Markdown handed to the summarizer; stated by `NormalizerSpec` |
| ContentNormalizer.NormalizerSpec | medicine_info.py:211-269 | a converted page is the collapsed Markdown of the main region followed by "\n\nSource URL: " and the address, so it has no three newlines in a row before the source line and keeps the render's text; a failure yields "Failed to convert content: " and the message |
| Summarizer.Excerpt | medicine_info.py:284 | the prompt embeds a prefix of the page of at most 20000 characters, the whole page when it is shorter |
| Summarizer.NextJsonFence | medicine_info.py:317 | the position of the first "```json" in the text after the first marker, or its end when there is none |
| Summarizer.FencePieceSpec | medicine_info.py:316-321 | with "```json" present, the piece is cut from the text between the first marker and the next one, at the first fence in that segment; else with "```" present, the text after the first fence up to the next; else the whole reply |
| Summarizer.FencePiece | medicine_info.py:316-321 | the code-fence cut of the reply; stated by `FencePieceSpec` and `StraddlingFenceExample` |
| Summarizer.JsonText | medicine_info.py:316-321 | the trimmed fence cut; stated by `FencedJsonReply` |
| Summarizer.StraddlingFenceExample | medicine_info.py:316-317 | a fence that runs into the next "```json" marker is not seen: "```jsonx````json" gives "x`" |
| Summarizer.FencedJsonReply | medicine_info.py:316-321 | a reply fenced as "```json" … "```" around text without backticks is reduced to that text, stripped |
| Summarizer.DoubleBackslashes | medicine_info.py:324 | doubling backslashes lengthens the text by its number of backslashes and introduces no new character |
| Summarizer.HalveDouble | medicine_info.py:324 | halving backslash pairs undoes the doubling on every text |
| Summarizer.Escape | medicine_info.py:324 | the escaped text has no newline and is longer by exactly the number of backslashes |
| Summarizer.EscapeInverse | medicine_info.py:324 | escaping loses exactly the newlines: undoing the doubling gives the text with newlines turned into spaces, and the text itself when it has none |
| Summarizer.StripNonAscii | medicine_info.py:331 | the repair keeps only ASCII characters, keeps every ASCII character of the text, and leaves ASCII text unchanged |
| Summarizer.StripNonAsciiAppend | medicine_info.py:331 | the repair works piece by piece, so the kept characters stay in their order |
| Summarizer.Decode | medicine_info.py:327-332 | the decode with its non-ASCII fallback; stated by `MedicineInfoSpec` |
| Summarizer.NonObjectError | medicine_info.py:335-336 | a decoded value raises on the medicine-name check exactly when it is not an object |
| Summarizer.WithDefaults | medicine_info.py:338-345 | the filled record holds all six required keys |
| Summarizer.FillDefaults | medicine_info.py:338-345 | the key-filling loop computes exactly the specified defaults |
| Summarizer.ObjectRecordSpec | medicine_info.py:334-345 | keys the model supplied are kept; a missing or falsy medicine_name becomes the name asked about; a missing key_benefits becomes [] and any other missing required key "" |
| Summarizer.ErrorRecordSpec | medicine_info.py:349-359 | the error record carries the name asked about, a description that starts with "Error extracting information: " followed by the message, and empty values for the other fields |
| Summarizer.ErrorRecord | medicine_info.py:349-359 | the record returned when anything raised; stated by `ErrorRecordSpec` |
| Summarizer.RecordFor | medicine_info.py:300-359 | every record made from a reply, good or failed, holds all six required keys |
| Summarizer.MedicineInfo | medicine_info.py:277-359 | the function's record always holds all six required keys |
| Summarizer.ExtractMedicineInfo | medicine_info.py:277-359 | the method returns exactly the specified record |
| Summarizer.MedicineInfoSpec | medicine_info.py:300-359 | a reply that decodes to an object gives the filled-in object; a failed call, an undecodable reply or a non-object gives the error record with the message |
| Summarizer.OnlyExcerptMatters | medicine_info.py:284 | pages that agree on their first 20000 characters yield the same record |
| Summarizer.Backoff | medicine_info.py:271-276 | at most the allowed number of attempts; a failure is returned only after all of them; a success is the result of the last attempt made |
| Summarizer.NeverRetries | medicine_info.py:271-359 | because the function never raises, the three-attempt policy makes exactly one attempt and returns its record |
| Orchestrator.ResolvedName | medicine_info.py:406-408 | a non-empty name read from the product page replaces the search stage's name; otherwise that name is kept |
| Orchestrator.Placeholder | medicine_info.py:394-402 | the record appended without a fetched page; `PlaceholderComplete` states it has every key and an empty url |
| Orchestrator.SuccessTest | medicine_info.py:420 | the success test and its `AttributeError`; stated by `ItemRecordSpec` |
| Orchestrator.ItemRecord | medicine_info.py:392-442 | the record appended for an outcome and whether it counts; stated by `ItemRecordSpec` |
| Orchestrator.Item | medicine_info.py:387-442 | the record appended for one medicine; stated by `ItemSpec` |
| Orchestrator.Outcome | medicine_info.py:387-416 | a page that was fetched yields a record with a description |
| Orchestrator.LookUp | medicine_info.py:387-416 | the stages for one medicine end as specified: no address, an escaping error, or the record fetched from the page |
| Orchestrator.ProcessItem | medicine_info.py:387-442 | the loop body appends exactly the specified record and reports exactly the specified success |
| Orchestrator.Successes | medicine_info.py:419-421 | the number of successes never exceeds the number of medicines processed |
| Orchestrator.RunBatch | medicine_info.py:384-442 | one record per medicine, in input order, and a success count equal to the number of successful medicines |
| Orchestrator.ItemSpec | medicine_info.py:392-442 | every record has the six required keys and a url; no page gives the "no URL" placeholder; an escaping exception gives an "Error: " placeholder; a truthy description that is not a string gives the placeholder of the AttributeError; otherwise the fetched record with the page's address is kept and is a success exactly when its description is a non-empty string not starting with "Error" |
| Orchestrator.ItemRecordSpec | medicine_info.py:392-442 | the same, for each way the stages can end |
| Orchestrator.NoPageKeepsInputName | medicine_info.py:392-403 | when no page is found the placeholder carries the input name, whatever the search engine suggested, and an empty url |
| Orchestrator.FirstNonString | medicine_info.py:454-456 | the first list item that is not a string, or None when all are strings |
| Orchestrator.BenefitsListSpec | medicine_info.py:454-458 | list benefits are joined with ", " exactly when every item is a string; otherwise the TypeError names the first item that is not |
| Orchestrator.BenefitsText | medicine_info.py:453-458 | the benefits text or the join's `TypeError`; stated by `BenefitsListSpec` |
| Orchestrator.EntryOf | medicine_info.py:450-468 | a record's entry exists exactly when its benefits format and its name is hashable; it is stored under the name's key with the formatted benefits; a benefits error is the record's error |
| Orchestrator.Fold | medicine_info.py:449-468 | the reduction of the first n contributions; stated by `FoldErrors`, `FoldShape` and `FoldLastWins` |
| Orchestrator.FoldErrors | medicine_info.py:449-468 | the reduction succeeds exactly when every record formats; otherwise it fails with the error of the first record that does not |
| Orchestrator.FormatResults | medicine_info.py:449-468 | the reduction loop computes exactly the specified fold, stopping at the first formatting error |
| Orchestrator.FoldStaysFailed | medicine_info.py:449-468 | once the reduction fails it stays failed with the same error |
| Orchestrator.FoldShape | medicine_info.py:449-468 | a successful reduction saw no formatting error, and its mapping has distinct keys and at most one entry per record |
| Orchestrator.FoldKeys | medicine_info.py:461 | the keys of the mapping are exactly the names of the records |
| Orchestrator.FoldLastWins | medicine_info.py:461 | each record's name maps to its entry unless a later record has an equal name |
| Orchestrator.DistinctKeysKeepAll | medicine_info.py:461 | with pairwise different names no entry is lost |
| Orchestrator.Records | medicine_info.py:384-442 | every record of the batch has all keys the reduction reads |
| Orchestrator.ProcessMedicineList | medicine_info.py:361-473 | the method computes exactly the specified batch outcome |
| Orchestrator.EmptyListCrashes | medicine_info.py:471 | an empty list ends in a division by zero |
| Orchestrator.BatchSpec | medicine_info.py:449-473 | a completed batch had at least one medicine, holds at most one entry and one success per medicine, and stores each record under its name unless a later record has an equal name |
| Orchestrator.Batch | medicine_info.py:361-473 | the outcome of `process_medicine_list`; stated by `BatchCompletes` and `BatchSpec` |
| Orchestrator.BatchCompletes | medicine_info.py:449-473 | the batch completes exactly when the list is non-empty and every record formats; otherwise a non-empty batch raises the error of the first record that does not |
| Orchestrator.SameNameCollapses | medicine_info.py:461 | two records with the same name leave a single entry, the later one |
| Json.HashKey | medicine_info.py:461 | a medicine name can key the mapping exactly when it is not a list or an object |
| PyDict.Put | medicine_info.py:461 | storing keeps keys distinct, makes the key hold the new value, and adds at most one entry |
| PyDict.PutKeys | prescription_data.py:210-213 | an existing key keeps its position; a new key is appended at the end |
| PyDict.PutOthers | prescription_data.py:210-213 | storing one key leaves the value of every other key unchanged |
| Text.Split | prescription_data.py:64 | splitting on a character gives one more part than there are separators, none holding the separator |
| Text.JoinSplit | prescription_data.py:64 | joining the parts of a split with the separator gives back the text |
| Text.StripIdempotent | prescription_data.py:121 | stripping twice is stripping once |
| Text.RemoveAllFront | medicine_info.py:174 | `.replace(t, '')` deletes an occurrence of `t` at the front of the text |
| Text.RemoveAllCopy | medicine_info.py:174 | `.replace(t, '')` copies text in front in which no occurrence of `t` starts |
| Text.TitleKeepsNonLetters | medicine_info.py:175 | title-casing neither adds nor removes a character that is not a letter |
| PrescriptionUtil.NameEnd | prescription_data.py:37 | the kept part of the path is a prefix of it, no longer than the path |
| PrescriptionUtil.NameEndSpec | prescription_data.py:37 | what is cut from the end of the path is only '/' and "." components, starting at a '/', and what is kept ends in a component that is neither empty nor "." |
| PrescriptionUtil.NameEndZero | prescription_data.py:37 | nothing is kept exactly when the path is only '/' and "." components |
| PrescriptionUtil.FileName | prescription_data.py:37 | the file name has no '/' and is the last component of the kept part of the path: all of it when it has no '/', otherwise the text right after its last '/' |
| PrescriptionUtil.FileNameSpec | prescription_data.py:37 | the file name is empty exactly when the path is only '/' and "." components, and is never "." |
| PrescriptionUtil.NameOfProperEnd | prescription_data.py:37 | the last component of a path that ends in a proper component is neither empty nor "." |
| PrescriptionUtil.TrailingComponentsDropped | prescription_data.py:37 | a trailing '/' or "/." does not change the file name |
| PrescriptionUtil.FileNameAfterSlash | prescription_data.py:37 | the file name of a directory, '/' and a component other than "" and "." is that component |
| PrescriptionUtil.PlainName | prescription_data.py:37 | a path with no '/' other than "" and "." is its own file name, with or without a trailing '/' |
| PrescriptionUtil.SlashDotAfterName | prescription_data.py:37 | a directory, '/', a proper component and a trailing "/." give that component as the file name |
| PrescriptionUtil.TrailingSlashExample | prescription_data.py:37-52 | "scan.jpg/" and "x/scan.jpg/." both have the name scan.jpg, and "scan.jpg/" is sent as JPEG |
| PrescriptionUtil.JpgExample | prescription_data.py:42-49 | scan.jpg is sent as JPEG |
| PrescriptionUtil.Extension | prescription_data.py:42 | the extension is non-empty exactly when the last dot is neither the first nor the last character, and is then the text after that dot, with no dot in it |
| PrescriptionUtil.Subtype | prescription_data.py:43-49 | jpg and jpeg give jpeg, webp gives webp, and everything else png |
| PrescriptionUtil.MimeType | prescription_data.py:42-52 | the MIME type is always image/jpeg, image/png or image/webp |
| PrescriptionUtil.ExtensionLower | prescription_data.py:42 | the extension of the lower-cased name is the lower-cased extension |
| PrescriptionUtil.MimeTypeIgnoresCase | prescription_data.py:42-49 | the MIME type does not depend on the case of the file name |
| PrescriptionUtil.UpperExtensionExample | prescription_data.py:42-49 | an upper-case .JPG is recognised as JPEG |
| PrescriptionUtil.HiddenFileExample | prescription_data.py:42-49 | a name whose only dot is its first character has no extension and defaults to PNG |
| PrescriptionUtil.TrailingDotExample | prescription_data.py:42-49 | a name ending in a dot has no extension and defaults to PNG |
| PrescriptionUtil.Dose | prescription_data.py:71-78 | a slot holds its part verbatim exactly when the part is neither "0" nor "0/0" |
| PrescriptionUtil.GetTimingText | prescription_data.py:56-80 | building the schedule slot by slot gives exactly the specified schedule |
| PrescriptionUtil.TimingSpec | prescription_data.py:61-80 | a code without exactly two '-' gives no doses; otherwise the code is its three parts joined by '-', and each slot is present exactly when its part is not "0" or "0/0" |
| PrescriptionUtil.TimingSchedule | prescription_data.py:56-80 | the doses read from a timing code; stated by `TimingSpec` |
| PrescriptionUtil.TimingExamples | prescription_data.py:56-80 | "0-1/2-0" gives only an afternoon dose of "1/2", "1-0-1" morning and night doses of "1", and "1-1" nothing |
| PrescriptionUtil.PrefixLength | prescription_data.py:97-98 | a match is the prefix, an optional dot and a whole non-empty whitespace run at the start of the name, with nothing else after the prefix; there is no match exactly when the prefix is not followed by whitespace or by a dot and whitespace |
| PrescriptionUtil.NameHead | prescription_data.py:92-93 | the part the prefixes are tried on has no upper-case letter and no '-' |
| PrescriptionUtil.DropAllTail | prescription_data.py:96-98 | removing prefixes only cuts text off the front of the name |
| PrescriptionUtil.DropPrefixes | prescription_data.py:96-98 | the prefix loop tries each prefix once, in list order, exactly as specified |
| PrescriptionUtil.NoPrefixAfter | prescription_data.py:96-98 | prefixes that do not match what is left change nothing |
| PrescriptionUtil.PrefixOnlyWhole | prescription_data.py:97 | in front of a word and a space, a prefix word matches only when it is that whole word |
| PrescriptionUtil.PrefixesAreWords | prescription_data.py:87-89 | every prefix is a lower-case word |
| PrescriptionUtil.RemoveStrengthsFrom | prescription_data.py:101 | `re.sub(r'\b\d+\s*(?:mg\|ml\|mcg\|g)\b', '', …)`; stated by `StrengthDropped`, `NonStrengthKept`, `InsideWordKept`, `DigitFreeStrengths` and `StrengthsKeepChars` |
| PrescriptionUtil.StrengthDropped | prescription_data.py:101 | digits at a word start, optional whitespace and one of mg, ml, mcg or g ending at a word end are deleted together |
| PrescriptionUtil.NonStrengthKept | prescription_data.py:101 | a character at which no strength starts is copied, so a digit run not followed by a unit ending a word ("5x", "3tc") stays |
| PrescriptionUtil.InsideWordKept | prescription_data.py:101-104 | a character preceded by a word character starts neither a deleted strength nor a deleted number, so it is copied |
| PrescriptionUtil.StrengthsKeepChars | prescription_data.py:101 | removing strengths introduces no character |
| PrescriptionUtil.DigitFreeStrengths | prescription_data.py:101 | a stretch without digits is copied unchanged by the strength removal |
| PrescriptionUtil.RemoveNumbersFrom | prescription_data.py:104 | `re.sub(r'\b\d+\b', '', …)`; stated by `NumberDropped`, `NumberInWordKept`, `InsideWordKept` and `DigitFreeNumbers` |
| PrescriptionUtil.NumbersKeepChars | prescription_data.py:104 | removing standalone numbers introduces no character |
| PrescriptionUtil.DigitFreeNumbers | prescription_data.py:104 | a stretch without digits is copied unchanged by the number removal |
| PrescriptionUtil.NumberDropped | prescription_data.py:104 | a digit run from a word start to a word end is deleted |
| PrescriptionUtil.NumberInWordKept | prescription_data.py:104 | a digit run that runs into a letter or underscore is copied |
| PrescriptionUtil.CollapseSpacesFrom | prescription_data.py:107 | after the collapse whitespace is single spaces, and text that starts with another character still starts with it; run by run the rule is stated by `CollapseSpacesRun`, `CollapseSpacesAppend` and `CollapseSpacesBetween` |
| PrescriptionUtil.CollapseSpacesChars | prescription_data.py:107 | the collapse introduces no character other than a space |
| PrescriptionUtil.SingleSpacedKept | prescription_data.py:107 | single-spaced text is left unchanged by the whitespace collapse |
| PrescriptionUtil.CollapseSpacesRun | prescription_data.py:107 | a non-empty all-whitespace text collapses to one space |
| PrescriptionUtil.CollapseSpacesAppend | prescription_data.py:107 | texts that do not meet inside a whitespace run collapse separately |
| PrescriptionUtil.CollapseSpacesBetween | prescription_data.py:107 | a whitespace run between text that does not end and text that does not start with whitespace becomes exactly one space, the rest collapsing on its own |
| PrescriptionUtil.TidySpec | prescription_data.py:101-107 | the tidied text has no whitespace at either end, only single spaces, and no new character other than a space |
| PrescriptionUtil.NamedFolded | prescription_data.py:96-98 | removing prefixes keeps the name free of upper-case letters and '-' |
| PrescriptionUtil.MedicineNameFolded | prescription_data.py:92-109 | a cleaned name is lower-case and holds no '-' |
| PrescriptionUtil.MedicineNameSpaced | prescription_data.py:107 | a cleaned name has no whitespace at either end, and its whitespace is single spaces |
| PrescriptionUtil.MedicineNameClean | prescription_data.py:82-109 | every non-empty cleaned name is lower-case, '-'-free, trimmed and single-spaced |
| PrescriptionUtil.MedicineNameIgnoresCase | prescription_data.py:92 | lower-casing the input first changes nothing |
| PrescriptionUtil.MedicineName | prescription_data.py:82-109 | the cleaned name; stated by `MedicineNameClean`, `LineName` and `AnyCaseLineName` |
| PrescriptionUtil.CleanMedicineName | prescription_data.py:82-109 | the method returns exactly the specified cleaned name |
| PrescriptionUtil.LineName | prescription_data.py:82-109 | "Tab. <name> <digits>mg" cleans to the bare name, for any lower-case word that is not a formulation |
| PrescriptionUtil.AnyCaseLineName | prescription_data.py:82-109 | the same line with the name in any case cleans to the lower-cased name, so "Tab. Metformin 500mg" gives "metformin" |
| PrescriptionUtil.StrengthAfterName | prescription_data.py:101 | digits followed by "mg" after a word and a space form one strength |
| PrescriptionUtil.LineStrength | prescription_data.py:101 | the strength at the end of the line is removed, leaving the word and its space |
| PrescriptionUtil.WordSpaceKept | prescription_data.py:104-107 | a word and a space survive the number removal and the whitespace collapse |
| PrescriptionUtil.LineTidy | prescription_data.py:101-107 | "<name> <digits>mg" tidies to the name |
| PrescriptionUtil.RemoveJsonFencesFrom | prescription_data.py:117 | removing "```json" markers introduces no character; what is deleted and what is kept is stated by `JsonFenceDropped`, `JsonFreeStretch` and `NoJsonFenceKept` |
| PrescriptionUtil.NoJsonFenceKept | prescription_data.py:117 | text without a "```json" marker is left unchanged by the marker removal |
| PrescriptionUtil.JsonFreeStretch | prescription_data.py:117 | a stretch where no "```json" starts is copied |
| PrescriptionUtil.JsonFenceDropped | prescription_data.py:117 | the first "```json" is deleted together with the whole whitespace run after it, and the text before it is kept |
| PrescriptionUtil.ClosingFenceFrom | prescription_data.py:118 | the closing fence removed is the first "```" that only whitespace follows |
| PrescriptionUtil.ClosingFenceAt | prescription_data.py:118 | a fence with only whitespace after it and no backtick before it is the closing fence found |
| PrescriptionUtil.DropClosingFence | prescription_data.py:118 | the result is the text up to the first fence that only whitespace follows, or the whole text when there is no such fence |
| PrescriptionUtil.PlainReplyTrimmed | prescription_data.py:111-123 | a reply without backticks is only stripped |
| PrescriptionUtil.FenceOpened | prescription_data.py:117 | in a fenced reply, the opening marker and the whitespace after it are removed and nothing else |
| PrescriptionUtil.FenceClosed | prescription_data.py:118 | in a fenced reply, the closing fence is removed, leaving the body with the whitespace around it |
| PrescriptionUtil.FencedReplyUnwrapped | prescription_data.py:111-123 | a "```json" code block around a body without backticks is cleaned to the stripped body |
| PrescriptionUtil.FencedLikeBody | prescription_data.py:111-123 | a fenced reply cleans to the same text as its bare body |
| PrescriptionUtil.CleanGeminiResponse | prescription_data.py:111-123 | the cleaned reply; stated by `PlainReplyTrimmed`, `FencedReplyUnwrapped` and `FencedLikeBody` |
| Prescription.LoadImage | prescription_data.py:35-54 | loading fails exactly when the file is missing; otherwise it sends the file's bytes unchanged |
| Prescription.LoadImageSpec | prescription_data.py:37-52 | the MIME type sent is JPEG, PNG or WebP, does not depend on the case of the name, and does not depend on the directory part of the path when the path has a non-empty name |
| Prescription.TimingOf | prescription_data.py:204-207 | a falsy timing gives no doses; a string gives its parsed schedule; any other truthy value raises |
| Prescription.ItemStepSpec | prescription_data.py:201-213 | an element raises exactly when it is not an object, its full_name is not a string, or its timing raises; it is skipped exactly when its name cleans to nothing; otherwise it stores the cleaned name with its schedule and its special_instructions, "" when absent |
| Prescription.ItemStep | prescription_data.py:201-213 | what one element contributes; stated by `ItemStepSpec` and `ItemStepKey` |
| Prescription.ItemStepKey | prescription_data.py:202-213 | every stored name is a clean name |
| Prescription.MedicineItems | prescription_data.py:201 | a list gives its elements; "" and {} give none; every other value raises |
| Prescription.Fold | prescription_data.py:199-213 | the dictionary built has distinct keys and at most one entry per element |
| Prescription.Simplified | prescription_data.py:199-213 | the same for the simplified medicine list |
| Prescription.FoldStaysFailed | prescription_data.py:199-213 | once an element raised, a longer run raises too |
| Prescription.SimplifyMedicines | prescription_data.py:199-213 | the loop computes exactly the specified dictionary, or fails when an element raises |
| Prescription.FoldFails | prescription_data.py:199-213 | the fold fails exactly when some element raises |
| Prescription.SimplifiedFails | prescription_data.py:199-213 | the simplification fails exactly when some medicine element raises |
| Prescription.FoldKeys | prescription_data.py:209-213 | when only clean names are stored, every key is clean |
| Prescription.SimplifiedKeys | prescription_data.py:209-213 | every key of the simplified dictionary is a clean name |
| Prescription.FoldLastWins | prescription_data.py:210-213 | each name holds the entry of the last element naming it |
| Prescription.FoldOrder | prescription_data.py:199-213 | the dictionary lists each stored name once, in order of first appearance |
| Prescription.FromData | prescription_data.py:196-222 | a non-object gives {}; the result is a prescription exactly when the object's medicines can be iterated and every element simplified, and then it holds that simplified list and patient_info and doctor_info as decoded, defaulting to {} |
| Prescription.FromReply | prescription_data.py:191-227 | once the reply text is read, every failure is caught: nothing escapes |
| Prescription.PrescriptionOf | prescription_data.py:125-233 | a missing image file raises "Could not find image: " followed by the path, out of the function |
| Prescription.ExtractPrescriptionInformation | prescription_data.py:125-233 | the method computes exactly the specified extraction |
| Prescription.DecodeReply | prescription_data.py:191-227 | cleaning, decoding and reducing the reply text give exactly the specified result |
| Prescription.ReduceData | prescription_data.py:196-222 | the decoded reply is reduced exactly as specified |
| Prescription.ExtractionFailures | prescription_data.py:185-233 | a failed model call gives {}; a reply whose text cannot be read raises out of the function; a reply that is not JSON gives {} |
| Prescription.ExtractedSpec | prescription_data.py:185-233 | the extraction succeeds exactly when the image is found, the call answers, the cleaned reply decodes to an object and its medicines simplify; it then holds exactly the simplified medicine list |
| Prescription.FencedAnswer | prescription_data.py:192 | a reply wrapped in a JSON code block is read like its bare body |
| Prescription.SimplifiedNames | prescription_data.py:246-251 | the keys of a simplified dictionary are distinct clean names |
| Prescription.MedicineNames | prescription_data.py:235-254 | the names returned; stated by `MedicineNamesSpec` and `MedicineNamesOrder` |
| Prescription.MedicineNamesSpec | prescription_data.py:235-254 | the names returned are distinct clean names; an exception from the extraction is passed on; every caught failure gives [] |
| Prescription.MedicineNamesOrder | prescription_data.py:246-251 | the names come in the order the medicines first appear in the reply |

## Left out

- Browser automation is left out: navigation, typing, cookie consent, waits and
  clicks. Each page interaction is an outcome given as input, such as a
  visibility flag, a read term, a click that succeeds or an exception.
- The search-box choice is modelled, but typing the query is not. The query
  reaches the results page unchanged.
- `human_delay` and random keystroke timing are left out (randomness and sleeping).
- The language-model calls, prompt text and generation settings are left out
  (an external service). Only the 20000-character excerpt is kept.
- BeautifulSoup parsing, the removal of noise elements and markdownify
  conversion are left out (foreign libraries). A page arrives already cleaned,
  as the stripped text lengths of the candidate elements plus an abstract
  Markdown renderer.
- `json.loads` is a parameter. JSON numbers are integers: floats are not
  modelled.
- The character classes of `\d`, `\w`, `lower()` and `title()` are ASCII only.
  Unicode digits, letters and case mappings are not modelled. `\s` and
  `strip()` use Python's full whitespace set.
- `load_image` receives the file content or its absence. Reading the file is
  not modelled. The file name drops trailing '/' and "." components as
  `pathlib` does, but the path in the error message is shown as given, not
  normalised. Paths use '/' separators only.
- The retry policy is modelled as attempts only. The exponential waits and
  jitter are left out.
- `str()` of a dictionary (for non-list benefits) is a parameter.
- Exception messages follow CPython 3.12 wording.
- Printing and the success-rate percentage formatting are left out. Only the
  division by zero on an empty list is kept.
- RemoveDosageFrom: its own contract only says that no character is introduced.
  Which text is deleted (a dosage, a trailing pack size) and which is kept is
  stated by the lemmas `DosageDropped`, `PackSizeDropped`, `DigitsKept` and
  `DigitFreeDosage` instead. The whole-slug example with a pack size
  ("dolo-650mg-tablet-15s") is not proved; `ApolloNameOfDosedSlug` and
  `ApolloNameOfTabletSlug` cover slugs without one.
- RemoveJsonFencesFrom: its own contract only says that no character is
  introduced. The deletion of each "```json" with its whitespace run, and the
  copying of the text between, are stated by the lemmas `JsonFenceDropped`,
  `JsonFreeStretch` and `NoJsonFenceKept`.
- Module-level API-key loading is not part of this model. `app.py` and
  `pdf_generator.py` are not part of this model either: they are the user
  interface and the PDF renderer.
