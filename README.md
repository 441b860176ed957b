# Owner's-manual scraper, PDF indexer and agent helpers — a Dafny model

This project models the decision logic of a small retrieval-augmented assistant for
vehicle owner's manuals:

- **manuals_scraper.py** — collapsing the product list to one product per
  (brand, model, modelType, ngtdModelId) key, choosing the model years to query,
  building the publications URL, walking the page's JSON data for publications,
  choosing the newest English owner's manual, and naming the downloaded PDF (plus
  the pure pre-checks of `get_pdf_link` and `download_pdf`).
- **index_chroma.py** — `BuildEmbeddings`: the extension filter of `_iter_files`,
  `_count_total_pages`, `_iter_pages`, `_page_key`, `_page_metadata`, and the
  buffer-and-flush loop of `build` together with `_flush_batch`.
- **agent_core.py** — the input handling of `SqlSelectTool.forward` and
  `ChromaRagTool.forward` around their database and vector-store calls.
- **streamlit_app.py** — `extract_citations` and `extract_sql`, with their regular
  expressions written out as scanners.

JSON values are a tagged union (`JsonValue.Json`: null, int, string, array, object
as an ordered list of pairs); Python truthiness, `dict.get` and `a or b` are modelled
on it. Python `str` operations live in `PyText` (`strip` uses Python's exact
whitespace set; `isdigit`, `isalnum` and `lower` are their ASCII restrictions).
Imperative code keeps its form: the loops become methods with invariants proved
against specification functions, `BuildEmbeddings` is a class whose `flushed` field
records every batch handed to the collection, and the recursive `visit` of
`collect_publications` is a class that appends to its `found` field.

`make_named_pdf` never drops a component whose sanitised form is empty:
`safe_filename` returns "manual" for it (manuals_scraper.py:201), so the component
is kept as "manual".

## Model

| member | source | states |
|---|---|---|
| ProductMerge.KeyOf | manuals_scraper.py:65 | the key of a product: brand, model, model type and ngtdModelId |
| ProductMerge.RankOf | manuals_scraper.py:56-60 | the rank of a product: its parsed line-off date, then its year or -1 |
| ProductMerge.BestOf | manuals_scraper.py:70 | `max(items, key=rank)` of a non-empty list |
| ProductMerge.Merged | manuals_scraper.py:62-74 | the best-ranked product of each key's group, the groups in first-occurrence order |
| ProductMerge.ParseIsoDate | manuals_scraper.py:47-54 | a falsy or non-string value gives `date.min`; otherwise the text before the first "T" is read as a YYYY-MM-DD calendar date and anything that does not read gives `date.min`; the result is always a valid date |
| ProductMerge.ParseCalendarDate | manuals_scraper.py:52 | a date that reads is a valid calendar date |
| ProductMerge.ParseFormatRoundTrip | manuals_scraper.py:52 | every valid date written as YYYY-MM-DD reads back as the same date |
| ProductMerge.ParsedDateFormatsBack | manuals_scraper.py:52 | a text that reads as a date is exactly that date written as YYYY-MM-DD |
| ProductMerge.MinDateIsLeast | manuals_scraper.py:49 | `date.min` comes before every other date Python can represent |
| ProductMerge.YearRank | manuals_scraper.py:58-59 | the year rank is -1 exactly when the year is not a non-negative int or a digit string, and is at least -1 |
| ProductMerge.RankLessTransitive | manuals_scraper.py:56-60 | the (date, year) tuple order is transitive |
| ProductMerge.RankTotal | manuals_scraper.py:56-60 | any two ranks are equal or ordered one way |
| ProductMerge.MaxIndexUpToIsFirstMaximum | manuals_scraper.py:70 | the index chosen among the first n ranks is not outranked by any of them and strictly outranks every earlier one |
| ProductMerge.BestOfIsFirstMaximum | manuals_scraper.py:70 | `max(items, key=rank)` returns an item that no item outranks and that strictly outranks every item before it, so ties go to the earliest |
| ProductMerge.Keys | manuals_scraper.py:65 | the key of each product, position by position |
| ProductMerge.Group | manuals_scraper.py:63-66 | a group holds only products with its key and is non-empty when the key occurs |
| ProductMerge.GroupMapIsGroups | manuals_scraper.py:63-66 | the dict built by the append loop has exactly the keys that occur, each mapped to its products in input order |
| ProductMerge.GroupMapStep | manuals_scraper.py:66 | one pass of the loop appends the product to its key's list, creating the list when the key is new |
| ProductMerge.GroupByKey | manuals_scraper.py:63-66 | the loop builds that dict, and its keys come out in first-occurrence order |
| ProductMerge.MergedAt | manuals_scraper.py:68-71 | the i-th merged product is the `max` of the group of the i-th distinct key |
| ProductMerge.MergedBy | manuals_scraper.py:68-72 | one merged product per distinct key |
| ProductMerge.MergeProductsLatest | manuals_scraper.py:62-74 | the two loops compute the merge specification |
| ProductMerge.MergedOnePerKey | manuals_scraper.py:62-74 | the keys of the output are the distinct input keys in first-occurrence order, without repeats, and every input key is represented |
| ProductMerge.MergedKeyAt | manuals_scraper.py:69-71 | the i-th merged product has the i-th distinct key |
| ProductMerge.MergedPicksLatest | manuals_scraper.py:70 | each merged product comes from the input, no product with its key outranks it, and every earlier product of its group ranks strictly lower |
| ProductMerge.BestOfGroup | manuals_scraper.py:70 | the maximum of a key's group has that key and is maximal among all input products with that key |
| ProductMerge.GroupOfDistinct | manuals_scraper.py:63-66 | when all keys differ, each group is the single product |
| ProductMerge.MergeFixesDistinctKeys | manuals_scraper.py:62-74 | a list whose keys are all different is returned unchanged |
| ProductMerge.MergeIdempotent | manuals_scraper.py:62-74 | merging a merged list changes nothing |
| YearRange.YearsFor | manuals_scraper.py:78-87 | the digit years of the products with the key, without repeats, newest first, at most `cap`, written with `str` |
| YearRange.PickYears | manuals_scraper.py:89-98 | the sibling years at the default cap of 12, or the product's own year when there are none |
| YearRange.SiblingYearsExact | manuals_scraper.py:79-85 | the collected years are exactly the digit years of the products with the same key |
| YearRange.SiblingYears | manuals_scraper.py:79-85 | no more years than products |
| YearRange.InsertDescending | manuals_scraper.py:86 | inserting keeps the list strictly descending and adds exactly the new year |
| YearRange.SortedSetDescending | manuals_scraper.py:86 | `sorted(set(years), reverse=True)` is strictly descending with the same elements as `years` |
| YearRange.DescendingListingUnique | manuals_scraper.py:86 | two strictly descending lists with the same elements are equal |
| YearRange.YearStrings | manuals_scraper.py:87 | `str` of each year, in order |
| YearRange.YearsForValues | manuals_scraper.py:87 | each returned string is digits and reads back as the year it came from |
| YearRange.YearsForSameProductSpec | manuals_scraper.py:78-87 | at most `cap` digit strings, strictly descending, each the year of a product with the same key |
| YearRange.YearsForKeepsNewest | manuals_scraper.py:86-87 | a sibling's year is either listed or older than every listed year: the cap keeps the newest |
| YearRange.YearsForUnderCap | manuals_scraper.py:86-87 | when fewer than `cap` years come back, every sibling's year is among them |
| YearRange.YearsForEmpty | manuals_scraper.py:78-87 | the list is empty exactly when no product with the same key has a digit year |
| YearRange.YearsForSameProduct | manuals_scraper.py:78-87 | the loop and the sort compute that list |
| YearRange.OwnYear | manuals_scraper.py:90-92 | at most one year, present exactly when the product's year is a digit value, and it reads back as that year |
| YearRange.PickYearsForProduct | manuals_scraper.py:89-96 | the method computes the sibling list, or the product's own year when that list is empty |
| YearRange.PickYearsFallback | manuals_scraper.py:94-96 | at most 12 years; empty exactly when neither the product nor a sibling has a digit year; without sibling years the product's own year is used |
| YearRange.PickYearsOfListedProduct | manuals_scraper.py:94-96 | for a product that is in the list the result is the sibling list itself |
| PublicationsUrl.Params | manuals_scraper.py:103-110 | the five base pairs followed by one "year[i]" pair per year |
| PublicationsUrl.EncodePairs | manuals_scraper.py:112 | "k=quote(v)" for each pair with a truthy value, in order; TypeError at a truthy non-string value |
| PublicationsUrl.PublicationsUrlOf | manuals_scraper.py:102-113 | the portal's "/publications?" followed by the encoded pairs joined with "&", or the encoding's error |
| PublicationsUrl.BaseParams | manuals_scraper.py:103-109 | the five fixed pairs, brand to language |
| PublicationsUrl.YearParamsAt | manuals_scraper.py:110-111 | the i-th appended pair is ("year[i]", years[i]) |
| PublicationsUrl.YearParams | manuals_scraper.py:110-111 | one pair per year |
| PublicationsUrl.BuildPublicationsUrl | manuals_scraper.py:102-113 | the method that appends the year pairs computes the URL specification |
| PublicationsUrl.EncodePairsSpec | manuals_scraper.py:112 | encoding fails with TypeError exactly when a truthy value is not a string; otherwise it writes `k=quote(v)` for the pairs with a truthy value, in order |
| PublicationsUrl.Assignments | manuals_scraper.py:112 | one `k=quote(v)` text per kept pair |
| PublicationsUrl.ParseAssignment | manuals_scraper.py:112 | a written pair reads back as its name and value |
| PublicationsUrl.QueryRoundTrip | manuals_scraper.py:112 | splitting the joined query at "&" and "=" and decoding gives back the pairs |
| PublicationsUrl.NamesArePlain | manuals_scraper.py:103-111 | no parameter name holds "&" or "=" |
| PublicationsUrl.BaseNonStringValue | manuals_scraper.py:103-109 | a base value is a truthy non-string exactly when brand, model or the modelType fallback is a non-zero int |
| PublicationsUrl.PublicationsUrlCarriesParams | manuals_scraper.py:102-113 | the URL starts with the portal's publications path and its query decodes to exactly the pairs with a non-empty value, in order: brand, model, modelType (falling back to model), ngtdModelId, language, then the years |
| PublicationsUrl.PublicationsUrlTypeError | manuals_scraper.py:102-113 | the URL cannot be built (TypeError) exactly when brand, model or the modelType fallback is a non-zero int |
| PercentEncoding.QuoteBytes | manuals_scraper.py:112 | each byte quoted in turn |
| PercentEncoding.Quote | manuals_scraper.py:112 | `quote(s)`: the UTF-8 bytes of the text, each quoted |
| PercentEncoding.EncodeChar | manuals_scraper.py:112 | UTF-8 uses one to four bytes, one exactly for ASCII |
| PercentEncoding.DecodeEncodedChar | manuals_scraper.py:112 | decoding the UTF-8 bytes of a character gives the character back |
| PercentEncoding.Utf8RoundTrip | manuals_scraper.py:112 | UTF-8 decoding undoes encoding |
| PercentEncoding.Utf8Injective | manuals_scraper.py:112 | different strings have different UTF-8 encodings |
| PercentEncoding.QuoteByte | manuals_scraper.py:112 | a byte that `quote` leaves alone (letters, digits, `_.-~/`) is written as itself; any other is "%" and two hex digits of its value |
| PercentEncoding.HexDigit | manuals_scraper.py:112 | an escape digit is a hexadecimal digit |
| PercentEncoding.QuoteBytesChars | manuals_scraper.py:112 | quoted text holds only unreserved characters, "/" and "%" escapes |
| PercentEncoding.QuoteHasNoDelimiters | manuals_scraper.py:112 | quoted text holds neither "&" nor "=" |
| PercentEncoding.PercentDecodeQuoteBytes | manuals_scraper.py:112 | percent-decoding undoes quoting of bytes |
| PercentEncoding.QuoteRoundTrip | manuals_scraper.py:112 | `quote(v)` decodes back to v |
| PercentEncoding.QuoteOfSafe | manuals_scraper.py:112 | text of safe ASCII characters is quoted as itself |
| JsonValue.Get | manuals_scraper.py:132-139 | `d.get(key)` is None for a missing key and otherwise the value of the key's last occurrence, the one `json.loads` keeps |
| JsonValue.Or | manuals_scraper.py:133-138 | `a or b` is one of the two, is truthy when either is, and is `a` when `a` is truthy |
| CollectPublications.Extract | manuals_scraper.py:131-140 | the record of one dict: each field is the first truthy value among its aliases, else the last alternative, with the part number and year taken as stored |
| CollectPublications.Found | manuals_scraper.py:128-145 | the records `visit` appends, in pre-order: a dict with a "partNumber" key gives its record before those under its values, a list those under its items in order, anything else none |
| CollectPublications.Deduplicated | manuals_scraper.py:147-154 | TypeError when a truthy part number is a list or dict; otherwise the values of the part-number dict in key insertion order |
| CollectPublications.Collector.constructor | manuals_scraper.py:126 | `found` starts empty |
| CollectPublications.Collector.Visit | manuals_scraper.py:128-145 | visiting a node appends the records of its pre-order walk |
| CollectPublications.Collector.VisitObject | manuals_scraper.py:129-142 | a dict with "partNumber" appends its record first, then its values' records |
| CollectPublications.Collector.VisitValues | manuals_scraper.py:141-142 | the values of a dict are visited in order |
| CollectPublications.Collector.VisitValue | manuals_scraper.py:142 | one value of a dict is visited |
| CollectPublications.Collector.VisitItems | manuals_scraper.py:143-145 | the items of a list are visited in order |
| CollectPublications.PartNumbers | manuals_scraper.py:150-152 | the part numbers that pass `if pn`, in order |
| CollectPublications.PartNumbersTruthy | manuals_scraper.py:152 | each of them is truthy |
| CollectPublications.PartNumbersCover | manuals_scraper.py:150-152 | every truthy part number found is among them |
| CollectPublications.UniqMap | manuals_scraper.py:149-153 | the dict's keys are truthy part numbers |
| CollectPublications.UniqMapDomain | manuals_scraper.py:149-153 | the dict's keys are exactly the distinct truthy part numbers |
| CollectPublications.UniqMapHoldsLast | manuals_scraper.py:153 | each key maps to the last record found with that part number |
| CollectPublications.ValuesInOrder | manuals_scraper.py:154 | `uniq.values()` lists the values in key insertion order |
| CollectPublications.DedupStep | manuals_scraper.py:150-153 | one pass of the loop adds a truthy part number and overwrites its entry |
| CollectPublications.OrderStep | manuals_scraper.py:153 | a key keeps the position of its first insertion when overwritten |
| CollectPublications.DeduplicateByPartNumber | manuals_scraper.py:149-154 | the loop computes the deduplication specification |
| CollectPublications.DeduplicatedSpec | manuals_scraper.py:149-154 | one record per distinct truthy part number, ordered by first occurrence, each the last record found with that part number |
| CollectPublications.DeduplicatedCovers | manuals_scraper.py:149-154 | every truthy part number found has a record in the result |
| CollectPublications.UnhashableRaises | manuals_scraper.py:153 | the call fails with TypeError exactly when a truthy part number is a list or a dict |
| CollectPublications.CollectPublications | manuals_scraper.py:125-154 | the walk then the deduplication, as specified |
| CollectPublications.FoundInFieldsMember | manuals_scraper.py:141-142 | a record is found under a dict's values exactly when it is found under one of them |
| CollectPublications.FoundInItemsMember | manuals_scraper.py:143-145 | a record is found under a list exactly when it is found under one of its elements |
| CollectPublications.ObjectReachable | manuals_scraper.py:129-142 | the objects reachable from a dict are the dict itself and those reachable from its values |
| CollectPublications.ListReachable | manuals_scraper.py:143-145 | the objects reachable from a list are those reachable from its elements |
| CollectPublications.FoundIsReachableObjects | manuals_scraper.py:128-145 | the walk finds a record exactly when it is the record of some dict with a "partNumber" key reachable from the root, at any depth |
| CollectPublications.CollectedRecordsReachable | manuals_scraper.py:125-154 | every returned record comes from a reachable dict and has a truthy part number |
| CollectPublications.CollectedPartNumbersDistinct | manuals_scraper.py:149-154 | no part number is returned twice |
| CollectPublications.CollectedCoversReachable | manuals_scraper.py:125-154 | every reachable dict with a truthy part number has a returned record with that part number |
| CollectPublications.CollectedFromReachable | manuals_scraper.py:125-154 | the result is one record per distinct truthy part number, all from reachable dicts, covering every reachable dict with a truthy part number |
| OmSelector.Candidates | manuals_scraper.py:160-163 | the English owner's manuals of the input and no other publication |
| OmSelector.DateKey | manuals_scraper.py:157-158 | the sort key is the text of `lineOffDate` before its first "T", or "" when the date is falsy |
| OmSelector.Insert | manuals_scraper.py:166 | insertion adds exactly one element |
| OmSelector.InsertHead | manuals_scraper.py:166 | an inserted element goes in front unless the first key is greater |
| OmSelector.SortDescending | manuals_scraper.py:166 | the sort is a permutation of its input |
| OmSelector.NotLessTransitive | manuals_scraper.py:166 | "not less than" on strings is transitive |
| OmSelector.InsertKeepsDescending | manuals_scraper.py:166 | insertion keeps the list in descending key order |
| OmSelector.SortIsDescending | manuals_scraper.py:166 | the sorted list is in descending key order |
| OmSelector.SortedHeadIsFirstLatest | manuals_scraper.py:166-167 | the head of the stable descending sort is the earliest candidate with the greatest key |
| OmSelector.PickLatestEnOm | manuals_scraper.py:156-167 | a returned publication is one of the English owner's manuals |
| OmSelector.PickNoneIff | manuals_scraper.py:164-165 | None exactly when no publication is an English owner's manual |
| OmSelector.PickErrorIff | manuals_scraper.py:158-166 | the call fails with AttributeError exactly when some candidate has a truthy `lineOffDate` that is not a string |
| OmSelector.PickIsFirstLatest | manuals_scraper.py:166-167 | the pick is the earliest English owner's manual whose date key is the greatest |
| OmSelector.PdfLinkPrecheck | manuals_scraper.py:170-175 | the request goes ahead exactly when part number and model type are truthy and the date before "T" is non-empty, with those three values; a truthy non-string date raises AttributeError |
| OmSelector.PdfLinkPrecheckPasses | manuals_scraper.py:170-175 | truthy part number and model type and a date that does not start with "T" pass the check |
| FileNaming.KeysOf | manuals_scraper.py:199 | iterating a dict yields its distinct keys in first-occurrence order |
| FileNaming.Stem | manuals_scraper.py:215 | the segments joined by ".", or "manual" when there are none |
| FileNaming.Sanitize | manuals_scraper.py:198-199 | each character is kept when alphanumeric or one of `._- ` and replaced by "_" otherwise |
| FileNaming.StrippedKept | manuals_scraper.py:200 | stripping "_" and " " keeps only allowed characters |
| FileNaming.Tidy | manuals_scraper.py:200-201 | stripping, truncating and the fallback give a non-empty name of at most 200 allowed characters that does not start with "_" or " " |
| FileNaming.SafeFilename | manuals_scraper.py:197-201 | the name is non-empty, at most 200 characters, made of allowed characters only, and does not start with "_" or " " |
| FileNaming.SafeFilenameKeepsCleanName | manuals_scraper.py:197-201 | a name that is already clean comes back unchanged |
| FileNaming.SafeFilenameFallback | manuals_scraper.py:201 | a name with nothing but "_", " " and replaced characters becomes "manual" |
| FileNaming.SafeFilenameDotFree | manuals_scraper.py:199-200 | sanitising adds no "." |
| FileNaming.Piece | manuals_scraper.py:199 | an iterated string is kept whole when it is all alphanumeric or a run of `._- `, and replaced by "_" otherwise |
| FileNaming.InfixOfChar | manuals_scraper.py:199 | a one-character string is in a text exactly when the character occurs in it |
| FileNaming.KeptPieceOfChar | manuals_scraper.py:199 | for one character, the string test agrees with the character test of Sanitize |
| FileNaming.SanitizePieces | manuals_scraper.py:199 | joining the pieces of a list succeeds exactly when every element is a string, and otherwise raises AttributeError |
| FileNaming.SanitizeValue | manuals_scraper.py:198-199 | the cleaned text of any value holds only allowed characters |
| FileNaming.SafeFilenameOf | manuals_scraper.py:197-201 | a string is named as `safe_filename` names it; the call raises TypeError exactly for a non-zero int and AttributeError exactly for a list holding a non-string; any other result is a tidy name |
| FileNaming.SanitizePiecesOfChars | manuals_scraper.py:199 | iterating a list of one-character strings cleans exactly as iterating the string does |
| FileNaming.SafeFilenameOfCharList | manuals_scraper.py:197-201 | a list of the characters of a text is named as the text is |
| FileNaming.KeysOfOne | manuals_scraper.py:199 | iterating a one-pair dict yields its one key |
| FileNaming.TidyOfAlnum | manuals_scraper.py:200-201 | an alphanumeric name of at most 200 characters is left unchanged |
| FileNaming.SafeFilenameOfDictKey | manuals_scraper.py:197-201 | a dict with one alphanumeric key is named after the key, whatever its value |
| FileNaming.PreferredYear | manuals_scraper.py:203-210 | the publication's digit year first, then the product's, each written as `str(int(y))` |
| FileNaming.PreferredYearFromDate | manuals_scraper.py:207-210 | without a digit year, the first four characters of `lineOffDate` when they are digits, else None |
| FileNaming.PreferredYearValue | manuals_scraper.py:204-206 | the year returned reads back as the chosen digit year |
| FileNaming.PreferredYearFromDict | manuals_scraper.py:207-210 | without a digit year, a dict `lineOffDate` raises exactly when it has four or more distinct keys, and otherwise gives None |
| FileNaming.PreferredYearFromRepeatedKey | manuals_scraper.py:207-210 | a dict `lineOffDate` whose pairs all repeat one key has length 1 and gives None |
| FileNaming.Segments | manuals_scraper.py:214 | at most one segment per component |
| FileNaming.SegmentsPreserve | manuals_scraper.py:214 | every segment is the sanitised form of a component that passed the filter |
| FileNaming.SegmentsOfEmpty | manuals_scraper.py:214 | empty components give no segment |
| FileNaming.PdfName | manuals_scraper.py:215-217 | the name built from segments ends in ".pdf" |
| FileNaming.PdfNameCharacters | manuals_scraper.py:212-217 | segments of allowed characters give a name of letters, digits, ".", "_" and "-" only |
| FileNaming.NameOf | manuals_scraper.py:215-217 | the name ends in ".pdf" |
| FileNaming.MakeNamedPdf | manuals_scraper.py:212-217 | the name ends in ".pdf" |
| FileNaming.NameOfCharacters | manuals_scraper.py:212-217 | the name holds only letters, digits, ".", "_" and "-": no space and no "/" |
| FileNaming.MakeNamedPdfFallback | manuals_scraper.py:215-217 | with every component empty the name is "manual.pdf" |
| FileNaming.NameOfAllEmpty | manuals_scraper.py:213-217 | any list of empty components gives "manual.pdf" |
| FileNaming.NameOfStem | manuals_scraper.py:215-217 | the name is the dot-joined segments with spaces replaced by "_", then ".pdf" |
| FileNaming.NameOfSegments | manuals_scraper.py:213-217 | for components without ".", splitting the stem at "." gives back the sanitised components with "_" for spaces, or "manual" when there are none |
| FileNaming.StemSplits | manuals_scraper.py:215-216 | splitting a dot-joined stem of dot-free segments gives back the segments |
| FileNaming.ReplaceCharJoin | manuals_scraper.py:216 | replacing spaces in the joined stem is replacing them in each segment |
| FileNaming.SegmentOf | manuals_scraper.py:214 | a falsy component gives no segment, a truthy one its safe name, and the call fails exactly when that name raises |
| FileNaming.SegmentsOf | manuals_scraper.py:213-214 | the segments succeed exactly when every component does, at most one per component, of allowed characters, and a failure is some component's error |
| FileNaming.SegmentsOfText | manuals_scraper.py:213-214 | string or falsy components give the segments of the string version |
| FileNaming.Components | manuals_scraper.py:221-226 | `download_pdf` passes five components |
| FileNaming.TargetPath | manuals_scraper.py:219-229 | a year error is passed on, and a path exists only when the year and every component succeed |
| FileNaming.TargetPathOfText | manuals_scraper.py:219-229 | with string or falsy components the path is the output directory joined to `make_named_pdf`'s name |
| FileNaming.DictModelTypeSegment | manuals_scraper.py:197-226 | a model type that is a dict with one alphanumeric key contributes that key as the model-type segment |
| FileNaming.PlanDownload | manuals_scraper.py:219-233 | the download plan exists exactly when the target path does, its path is that path, and it is skipped exactly when the path already exists |
| FileNaming.TargetPathInOutDir | manuals_scraper.py:228-229 | the target path is directly inside the output directory and ends in ".pdf" |
| FileNaming.InOutDir | manuals_scraper.py:229 | joining a clean ".pdf" name to the output directory stays directly inside it |
| FileNaming.SecondDownloadSkips | manuals_scraper.py:231-233 | once the file exists, the same publication is skipped with the same path |
| IndexChroma.PageKey | index_chroma.py:74-76 | the id of a page: the relative path, "::page:" and the page number |
| IndexChroma.PagesOf | index_chroma.py:89-98 | the pages of a readable document whose stripped text is not empty, numbered from 1, with that stripped text |
| IndexChroma.TotalPages | index_chroma.py:64-72 | the page count of every file that opens, blank pages included; a file that does not open counts 0 |
| IndexChroma.IndexPass | index_chroma.py:111-127 | the pass over the files in order: it stops at the first file that does not open, or with batch size 0 at the first page with text; otherwise it yields every file's records |
| IndexChroma.BuildResult | index_chroma.py:100-131 | `build` returns 0 when no file has a page, the error the pass stopped on, or the number of records |
| IndexChroma.BuildFlushes | index_chroma.py:100-131 | the batches `build` flushes: none without pages, the full batches before a stop, otherwise every batch with the remainder last |
| IndexChroma.PathJoin | index_chroma.py:55-61 | `os.path.join` of a directory and a name on POSIX paths |
| IndexChroma.AllowedName | index_chroma.py:56 | a name is kept when its lower-cased extension is allowed |
| IndexChroma.AllowedPaths | index_chroma.py:49-61 | the joined paths of the listed entries whose names are kept, in listing order |
| IndexChroma.PageKeyInjective | index_chroma.py:74-76 | two pages with the same key have the same relative path and page number |
| IndexChroma.TaggedNumberInjective | index_chroma.py:76 | a text, a fixed tag and a number written after it determine the text and the number |
| IndexChroma.PageMetadataOf | index_chroma.py:78-87 | the metadata carries the relative path, base name and page, and `file_page` and `uri` start with base name and path |
| IndexChroma.PageMetadataIdentifies | index_chroma.py:78-87 | `uri` and `file_page` together determine the path, base name and page |
| IndexChroma.NonBlankPages | index_chroma.py:91-98 | never more pages than the document has |
| IndexChroma.PagesOfSound | index_chroma.py:89-98 | every page yielded is numbered from 1 within the document and carries that page's stripped, non-empty text |
| IndexChroma.PagesOfOrdered | index_chroma.py:91-98 | pages are yielded in increasing page order |
| IndexChroma.PageYieldedAt | index_chroma.py:91-98 | a page with non-blank text is yielded with its number |
| IndexChroma.PagesOfComplete | index_chroma.py:89-98 | every page whose stripped text is non-empty is yielded |
| IndexChroma.RecordsOf | index_chroma.py:113-116 | one record per yielded page |
| IndexChroma.FileRecords | index_chroma.py:112-117 | a readable file gives one record per non-blank page |
| IndexChroma.RecordsWithinPages | index_chroma.py:112-117 | never more records than pages |
| IndexChroma.Ids | index_chroma.py:116 | the buffered ids, one per record |
| IndexChroma.Docs | index_chroma.py:114 | the buffered texts, one per record |
| IndexChroma.Metas | index_chroma.py:115 | the buffered metadata, one per record |
| IndexChroma.BatchesOf | index_chroma.py:124-126 | one batch per chunk of records |
| IndexChroma.UnbatchOf | index_chroma.py:134-136 | a batch has ids, texts and metadata of equal length and holds its records |
| IndexChroma.DeliveredBatches | index_chroma.py:124-130 | the records of the batches are the chunks concatenated |
| IndexChroma.AcceptStep | index_chroma.py:114-126 | adding a record flushes the buffer exactly when it reaches the batch size |
| IndexChroma.IndexPassStep | index_chroma.py:112-119 | one more file: it stops the pass when it cannot be opened, or when the batch size is 0 and it has a page with text; otherwise its records are added |
| IndexChroma.IndexPassSticky | index_chroma.py:112-119 | once the pass has stopped, later files change nothing |
| IndexChroma.IndexPassCompletes | index_chroma.py:112-119 | a pass that does not stop read every file and produced every record; with batch size 0 there were none |
| IndexChroma.IndexPassRunsThrough | index_chroma.py:112-119 | with every file readable, and no record when the batch size is 0, the pass does not stop |
| IndexChroma.IndexPassStops | index_chroma.py:112-119 | a pass that stops does so at the first unreadable file (read error) or, with batch size 0, at the first file with a page (ZeroDivisionError), after the records of the files before it |
| IndexChroma.BuildDeliversEveryPage | index_chroma.py:112-130 | when `build` succeeds, the flushed batches are aligned and concatenate to exactly the records of all pages, in order |
| IndexChroma.BuildFailureDeliversPrefix | index_chroma.py:112-126 | when `build` fails, only full batches were flushed and they hold a prefix of the records |
| IndexChroma.BuildBatchSizes | index_chroma.py:124-130 | for batch size at least 1 every batch is non-empty and at most the batch size, and all but the last are full |
| IndexChroma.BuildCountWithinPages | index_chroma.py:117-132 | the count returned never exceeds the page total |
| IndexChroma.FinalFlush | index_chroma.py:129-130 | the tail is flushed exactly when the buffer is non-empty |
| IndexChroma.Extension | index_chroma.py:56 | `splitext` gives "" or a suffix of the name that starts with its last "." and is shorter than the name |
| IndexChroma.Lower | index_chroma.py:56 | `lower()` letter by letter |
| IndexChroma.PathsWhere | index_chroma.py:54-57 | at most one path per directory entry |
| IndexChroma.PathOrigin | index_chroma.py:54-57 | each path yielded is an accepted entry joined to its directory |
| IndexChroma.PathFound | index_chroma.py:54-57 | each accepted entry is yielded |
| IndexChroma.AllowedPathsSound | index_chroma.py:54-57 | every file yielded has a lower-cased extension in `allowed_ext` |
| IndexChroma.AllowedPathsComplete | index_chroma.py:54-57 | every file whose lower-cased extension is allowed is yielded |
| IndexChroma.ExtensionAfterStem | index_chroma.py:56 | the extension of a name with something other than dots before its last "." is that "." and what follows |
| IndexChroma.DefaultKeepsPdf | index_chroma.py:56 | with the default `{".pdf"}`, any such name whose extension is "pdf" in any mix of cases is kept |
| IndexChroma.DefaultDropsOtherExtension | index_chroma.py:56 | with the default, any other extension is dropped |
| IndexChroma.DefaultDropsDotfile | index_chroma.py:56 | with the default, a name whose dots all come first, such as ".pdf", has no extension and is dropped |
| IndexChroma.BuildEmbeddings.constructor | index_chroma.py:22-39 | the builder keeps its batch size and allowed extensions and has flushed nothing |
| IndexChroma.BuildEmbeddings.IterFiles | index_chroma.py:49-62 | the walk yields the allowed files |
| IndexChroma.BuildEmbeddings.CountTotalPages | index_chroma.py:64-72 | the sum of the page counts of the files that open; others count 0 |
| IndexChroma.BuildEmbeddings.IterPages | index_chroma.py:89-98 | the loop yields the non-blank pages |
| IndexChroma.BuildEmbeddings.FlushBatch | index_chroma.py:134-142 | the batch is handed to the collection and recorded |
| IndexChroma.BuildEmbeddings.Accept | index_chroma.py:114-126 | buffering one record keeps the flushed batches equal to the full chunks and the buffer equal to the remainder |
| IndexChroma.BuildEmbeddings.AddPages | index_chroma.py:113-126 | the same for all pages of one file |
| IndexChroma.BuildEmbeddings.IndexFiles | index_chroma.py:107-126 | the file loop follows the pass specification: where it stops, the count, the flushed batches and the buffer |
| IndexChroma.BuildEmbeddings.Build | index_chroma.py:100-132 | `build` returns the specified count or error and flushes exactly the specified batches |
| Chunks.FullChunks | index_chroma.py:124-126 | every batch flushed inside the loop has exactly the batch size |
| Chunks.Rest | index_chroma.py:124-130 | the buffer left after the loop is shorter than the batch size |
| Chunks.Push | index_chroma.py:114-126 | adding an item either completes a batch and empties the buffer or only grows the buffer |
| Chunks.FullChunksThenRest | index_chroma.py:124-130 | the full batches followed by the buffer are all the items |
| Chunks.BatchesFlatten | index_chroma.py:124-130 | all batches together are all the items, in order |
| Chunks.BatchesSizes | index_chroma.py:124-130 | every batch is non-empty and at most the batch size, and all but the last are full |
| AgentTools.QueryMissing | agent_core.py:39 | the query is missing or only whitespace |
| AgentTools.Statement | agent_core.py:41 | the stripped query with trailing ";" removed |
| AgentTools.PassageSource | agent_core.py:122-123 | the first truthy of "file_path" and "source", else "unknown", written as the f-string writes it |
| AgentTools.PassagePage | agent_core.py:122-124 | the first truthy of "page" and "page_number", written as the f-string writes it ("None" when neither is set) |
| AgentTools.Passage | agent_core.py:125 | "[n] score=… source=… page=…", a newline, then the stripped document |
| AgentTools.RagAnswer | agent_core.py:118-126 | "No relevant passages found." without documents, else the passages joined by blank lines |
| AgentTools.CountOr | agent_core.py:44 | an int is used as it is, a digit string is read as its number, anything else gives the default |
| AgentTools.CountOrReadsNumeral | agent_core.py:44 | the text of any number is read back as that number |
| PyText.IntToString | agent_core.py:125 | `str(i)` for any int, with a "-" before a negative one |
| PyText.Strip | index_chroma.py:95 | `s.strip()`: the text without surrounding whitespace |
| PyText.StrLess | manuals_scraper.py:166 | Python's `<` on strings: lexicographic by character |
| PyText.Join | manuals_scraper.py:112 | `sep.join(parts)` |
| PyText.DecimalLeadingZero | agent_core.py:44 | a leading "0" does not change the value of a digit string |
| AgentTools.CountOrLeadingZeros | agent_core.py:44 | any number of leading zeros before a number's digits still reads as that number |
| AgentTools.PlanSql | agent_core.py:38-44 | refused exactly when the query is missing or blank, or its statement does not start with "select" in any case, with the matching message; otherwise the stripped statement runs under the given or default limit |
| AgentTools.ExecutedStatementFromQuery | agent_core.py:41-43 | the statement run is the query with surrounding whitespace and trailing ";" removed, starts with "select" and does not end with ";" |
| AgentTools.RefusedBeforeDatabase | agent_core.py:39-46 | a refused query gets its message whatever the database would answer |
| AgentTools.RowsText | agent_core.py:62 | the stripped CSV text, or "(no rows)" when that text is empty |
| AgentTools.SqlForward | agent_core.py:38-62 | the answer is never empty, and for an accepted query it is the text of what the database returns for the statement and limit |
| AgentTools.PlanRag | agent_core.py:103-105 | refused exactly when the query is missing or blank; otherwise the search uses the query and the given or default k |
| AgentTools.PassageSourceFallback | agent_core.py:122-123 | the source shown is `file_path` when truthy, else `source`, else "unknown", and is never empty |
| AgentTools.ZipLength | agent_core.py:121 | `zip` stops at the shortest list |
| AgentTools.Passages | agent_core.py:120-125 | one passage per zipped triple |
| AgentTools.PassageNumbered | agent_core.py:121-125 | the i-th passage starts with "[i+1]" |
| AgentTools.ShortZipAnswersEmpty | agent_core.py:117-126 | documents without metadata or distances give the empty answer, not the no-passage message |
| AgentTools.FormatPassages | agent_core.py:120-125 | the loop builds the passages in order |
| AgentTools.RagForward | agent_core.py:102-126 | a missing query gets the error; otherwise the passages of the search result joined by blank lines, or "No relevant passages found." when there is no document |
| AnswerParsing.Citations | streamlit_app.py:17-18 | the stripped path and the page number of each match of the citation pattern, in order |
| AnswerParsing.SearchFrom | streamlit_app.py:28-33 | `pattern.search`: the match at the first position from `p` on that has one |
| AnswerParsing.CitationIn | streamlit_app.py:12 | a bracket text is a citation only as a non-empty path, ":" and digits |
| AnswerParsing.CitationInOf | streamlit_app.py:12 | a non-empty path, ":" and digits are read back as that path and those digits |
| AnswerParsing.NextBracket | streamlit_app.py:12 | the first "[" or "]" at or after a position |
| AnswerParsing.MatchPrefix | streamlit_app.py:12 | a match runs from "[" to the next bracket, which must be "]", and its groups are well formed |
| AnswerParsing.MatchPrefixSound | streamlit_app.py:12 | a match spans exactly "[path:digits]" |
| AnswerParsing.MatchPrefixOf | streamlit_app.py:12 | "[path:digits]" at the start of a text is matched, whatever follows |
| AnswerParsing.Findall | streamlit_app.py:17 | `findall` gives well-formed groups only |
| AnswerParsing.MatchPrefixBeforeBracket | streamlit_app.py:12 | no match runs past a following "[" |
| AnswerParsing.FindallBeforeBracket | streamlit_app.py:17 | text followed by "[" yields its own matches and then those of the rest |
| AnswerParsing.FindallSplit | streamlit_app.py:17 | a citation between two texts is found between their matches, in order |
| AnswerParsing.FindallSound | streamlit_app.py:17 | every match is well formed and its "[path:digits]" text occurs in the answer |
| AnswerParsing.CitesOf | streamlit_app.py:18 | each match becomes (stripped path, page number) |
| AnswerParsing.CitedRoundTrip | streamlit_app.py:12-18 | citing "[path:n]" puts (path, n) in the citation list, in its place among the citations of the surrounding text |
| AnswerParsing.CitationsSound | streamlit_app.py:12-18 | every cited path is free of brackets and comes from a citation that occurs in the answer |
| AnswerParsing.PathsOf | streamlit_app.py:21 | the cited paths in order |
| AnswerParsing.ExtractCitations | streamlit_app.py:16-25 | the citations of the answer (none for a missing or empty answer), and each cited path once, in order of first citation, no more and no fewer |
| AnswerParsing.SpaceRun | streamlit_app.py:13 | `\s*` takes the whole run of whitespace |
| AnswerParsing.NextFence | streamlit_app.py:13 | the first "```" at or after a position |
| AnswerParsing.SqlBlockAt | streamlit_app.py:13 | a match is "```", "sql" in any case, whitespace, then the text up to the next "```" |
| AnswerParsing.SelectBlockAt | streamlit_app.py:14 | a match is "```", whitespace, then text that starts with SELECT in any case, up to the next "```" after it |
| AnswerParsing.SearchFromLeftmost | streamlit_app.py:28 | `search` returns the match at the leftmost position that has one, and nothing when none has |
| AnswerParsing.ExtractSql | streamlit_app.py:27-34 | the result does not start or end with whitespace |
| AnswerParsing.ExtractSqlPrefersSqlBlock | streamlit_app.py:27-30 | with a closed "```sql" block anywhere, "sql" in any case, the result is the stripped body of the leftmost one, whatever other blocks there are |
| AnswerParsing.ExtractSqlFromSelectBlock | streamlit_app.py:31-33 | without a "```sql" block, a SELECT block gives a statement that starts with SELECT |
| AnswerParsing.StripKeepsSelect | streamlit_app.py:33 | stripping keeps a leading SELECT |
| AnswerParsing.ExtractSqlWithoutBlock | streamlit_app.py:27-34 | an answer without a closed code block gives "" |
| FirstOccurrences.Distinct | streamlit_app.py:19-24 | the order-preserving deduplication has no repeats and holds only input elements |
| FirstOccurrences.DistinctCovers | streamlit_app.py:19-24 | every input element is kept |
| FirstOccurrences.DistinctSnoc | streamlit_app.py:21-24 | an element is appended exactly when it was not seen before |
| FirstOccurrences.DistinctKeepsFirstOccurrenceOrder | streamlit_app.py:19-24 | kept elements are in the order of their first occurrences |
| FirstOccurrences.DistinctOfNoDuplicates | manuals_scraper.py:69 | a list without repeats is its own deduplication |
| PyText.NatToString | manuals_scraper.py:87 | `str(n)` is a string of digits |
| PyText.DecimalOfNatToString | manuals_scraper.py:92 | `int(str(n)) == n` |
| PyText.NatToStringInjective | index_chroma.py:76 | different numbers are written differently |
| PyText.LStrip | agent_core.py:41 | the longest suffix not starting with a stripped character |
| PyText.RStrip | agent_core.py:41 | the longest prefix not ending with a stripped character |
| PyText.StripCharsSpec | manuals_scraper.py:200 | stripping gives "" exactly when every character is stripped, otherwise a text that neither starts nor ends with one, and leaves a text that does not unchanged |
| PyText.StripCharsPreserves | manuals_scraper.py:200 | stripping keeps any property every character has |
| PyText.StripCharsInfix | agent_core.py:41 | what stripping keeps is a run of the text with only stripped characters around it |
| PyText.StrLessIrreflexive | manuals_scraper.py:166 | string order is irreflexive |
| PyText.StrLessTransitive | manuals_scraper.py:166 | string order is transitive |
| PyText.StrLessTotal | manuals_scraper.py:166 | string order is total |
| PyText.StrLessAsymmetric | manuals_scraper.py:166 | string order is asymmetric |
| PyText.SliceTo | manuals_scraper.py:200 | `s[:n]` is the prefix of length `min(n, len(s))` |
| PyText.Split | manuals_scraper.py:51 | `split` gives at least one part |
| PyText.BeforeFirstSplit | manuals_scraper.py:51 | the first part of a split is the text before the first separator |
| PyText.SplitJoin | manuals_scraper.py:112 | splitting joined separator-free parts gives the parts back |
| PyText.LastIndex | index_chroma.py:56 | the position of the last occurrence of a character, or none |
| PyText.ReplaceChar | manuals_scraper.py:216 | `replace` of one character, position by position |

## Left out

- HTTP: the session, retries, `get_products`, the request half of `get_pdf_link` and the streamed download are network I/O; `download_pdf` is modelled up to its existence check, with the existing files as a set.
- `parse_next_data` and `main` (HTML parsing with a foreign library, printing, the product limit): the JSON tree is an input.
- `datetime.fromisoformat` is modelled for the strict YYYY-MM-DD form only; other ISO forms it accepts (week dates, "YYYYMMDD") count as unparsable.
- `USE_SIBLING_YEARS` and `MERGE_PRODUCTS` are constants set to True; only those branches are modelled.
- JSON booleans and floats are not modelled; product fields are null, int or string.
- `isdigit`, `isalnum`, `lower` and `\d` are ASCII; Python's Unicode digits and letters, and the case folding of IGNORECASE beyond ASCII letters, are not modelled.
- FileNaming.SafeFilename: idempotence is not claimed, because truncation to 200 characters after stripping can leave a trailing "_" or " ".
- `os.walk`, `os.listdir`, `isdir`, `isfile`, `relpath` and `basename`: the directory listing is an input of (directory, name) pairs and the relative path and base name of a file are given.
- PdfReader is a foreign library: a document is either unreadable or a list of page texts (a page whose text extraction fails has empty text).
- IndexChroma.BuildEmbeddings.FlushBatch: the upsert and its delete-then-add fallback are one recorded batch; the collection's contents are not modelled.
- The progress print and its floating-point percentage in `build` are output only.
- FileNaming.PreferredYear: slicing a dict `lineOffDate` of four or more keys raises TypeError up to Python 3.11; from Python 3.12 slices are hashable and the lookup raises KeyError instead. The model gives TypeError.
- PublicationsUrl.EncodePairs: strings are sequences of Unicode scalar values; a lone surrogate, which `quote` rejects with UnicodeEncodeError (manuals_scraper.py:112), cannot occur in the model.
- The prints in `merge_products_latest` (manuals_scraper.py:73) and `get_pdf_link` (manuals_scraper.py:174) are output only.
- CollectPublications.Found: a dict whose JSON text repeats a key is walked over every stored pair, while `json.loads` keeps only the last value of the key; Get follows `json.loads`.
- IndexChroma.IndexPass: with batch size 0, `done % batch_size` raises after the page is buffered; the model stops before buffering it, which flushes the same (no) batches and raises the same error.
- sqlite execution and CSV writing: the database's CSV text is a function parameter of AgentTools.SqlForward.
- Embedding and the Chroma query: the search result (documents, metadata, distances) is a function parameter of AgentTools.RagForward, already taken out of Chroma's nested lists.
- AgentTools.Passage: the distance is given already formatted with four decimals, since floating-point formatting is not modelled.
- `load_system_prompt`, `build_agent`, the Streamlit UI and create_sql_db.py hold no logic of the modelled core.
