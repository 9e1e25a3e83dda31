# Microsporidia trait extraction: the deterministic core

The microsporidia text-mining scripts read paper titles and abstracts and
predict traits of microsporidia species:
- where they were found;
- their new species names and their hosts;
- how many nuclei their spores have.

Most of the work is done by NLP libraries: spaCy, flashgeotext, GeoNames and
TaxoNERD. Around those calls sits a layer of string and dictionary logic.
This project models that layer in Dafny and proves properties of it:

- **Locality bookkeeping** (`Locality`, `LocalityParse`):
  - `get_most_likely_region` picks a country from ranked GeoNames hits;
  - `assign_to_region_or_subregion` updates the regions table in place, with
    the GeoNames cache beside it;
  - `get_spacy_preds` filters spaCy entities;
  - `format_locality_string` renders a regions table as
    `"Region (a | b); Region2 ()"`;
  - `get_locality_dict` parses such a string back into a dictionary.
- **Span strings** (`LabelledSpans`): `get_spans` reads `"i-j; k-l|| m-n"`
  into `(start, end, label)` triples.
- **Text clean-up** (`SpacyExtractTraits`, `FeatureExtraction`): the two
  identical copies of `clean_text`.
- **Host candidates** (`HostFilter`, `MicrospAndHostNames`,
  `SpacyExtractTraits`):
  - the post-processing of `get_new_microsp_species`;
  - both `predict_taxonerd_hosts` functions: deduplication, then dropping
    names that contain the parasite name or mention "Microsp".
- **Spore nucleus counts** (`SporeNucleus`): the term-to-count table and
  `predict_spore_nucleus`'s per-sentence reduction into `"N (spore name)"`
  entries.

Supporting modules:
- `Wrappers`: Option and Result.
- `Strings`: the Python `str` behaviour the scripts rely on (`in`, `split`,
  `join`, `strip`, `lower`, `str(n)`, `int(s)`, and `list(set(...))`).
- `OrderedTable`: a Python dict with its key insertion order.

Each library call is a parameter of the member that uses it:
- the GeoNames search is a function from a place to the countries of its
  hits, best hit first;
- spaCy's entities are a sequence of (text, label) pairs;
- the matcher results of a sentence are a `Sentence` record;
- the TaxoNERD tagger is a function from a text to its `text` column;
- the new-species regular expression gives a list of match spans, and the
  indicator removal is a function on strings.

The code is imperative in six operations, and each is modelled that way.
- `assign_to_region_or_subregion` is a method on a `GeoPreds` object and a
  `GeonamesCache` object.
- `get_spacy_preds`, `format_locality_string`, `get_locality_dict`, the
  loop of `get_new_microsp_species` and the loop of `predict_spore_nucleus`
  are methods with loops.
- Each of those methods is proved equal to a specification function, and
  the lemmas are stated about that function.

Python's behaviour on unusual input is kept:
- an IndexError in `assign_to_region_or_subregion` when `found_as` is
  shorter than `locations`;
- an IndexError from `s[0]` on an empty subregion entry;
- the ValueErrors of the two-value unpacks and of `int()`;
- the KeyError of `nucleus_count[...]`;
- a region created from a subregion's country stores the names list
  `found_as[i]` flat, as its subregion list. `format_locality_string` then
  renders the first character of each name rather than the first name.

## Model

| member | source | states |
|---|---|---|
| Locality.LikelyRegions | src/2_predict_traits/locality_test.py:150-151 | `likely_regions` holds exactly the hits whose country is a known region |
| Locality.LikelyRegionsHead | src/2_predict_traits/locality_test.py:150-151 | the first element of `likely_regions` is the first hit, in result order, whose country is known |
| Locality.MostLikelyRegion | src/2_predict_traits/locality_test.py:144-163 | no hits give None; a known top country, or no known country at all, gives the top country; any result is the top country or a known region |
| Locality.FirstKnownHitChosen | src/2_predict_traits/locality_test.py:155-163 | when the top country is not known but another is, the result is the first known hit in result order, and it is not the top hit |
| Locality.Flat | src/2_predict_traits/locality_test.py:198-199 | the flat subregion list holds each name of `found_as[i]` as a single-name entry, in order |
| Locality.AssignOne | src/2_predict_traits/locality_test.py:190-202 | one pass keeps the regions table valid |
| Locality.AssignOneEffect | src/2_predict_traits/locality_test.py:190-202 | one pass touches only its target region and keeps every key in place. A location with no country overwrites its own entry. A new country gets `found_as = [country]` and the flat names. An existing country keeps its `found_as` and key position, and gets the names list appended exactly when it is not there yet; otherwise the table is unchanged |
| Locality.AppendKeepsNamesDistinct | src/2_predict_traits/locality_test.py:201-202 | appending never puts the same names list into a region twice |
| Locality.Fetch | src/2_predict_traits/locality_test.py:181-188 | after the lookup the location is cached. Existing entries are unchanged and no other key is added. A place already cached is not looked up again; a new one is stored with its GeoNames result |
| Locality.Pass | src/2_predict_traits/locality_test.py:179-202 | one pass changes the cache and the record of lookups exactly as the lookup does |
| Locality.AssignKeepsValid | src/2_predict_traits/locality_test.py:179-202 | the loop keeps the regions table a valid ordered dictionary |
| Locality.ReadCount | src/2_predict_traits/locality_test.py:179-199 | reference definition used by the lemmas: the loop reads at most every location |
| Locality.AssignFrom | src/2_predict_traits/locality_test.py:179-202 | the passes from any index raise the IndexError of `found_as[i]` exactly when a location is left to read and there are fewer names lists than locations |
| Locality.AssignCache | src/2_predict_traits/locality_test.py:179-188 | afterwards the cache keys are the old keys plus every location read. Old entries are unchanged, and every new entry is the GeoNames result for its key |
| Locality.NewLookupsMembers | src/2_predict_traits/locality_test.py:181-185 | a place is looked up exactly when it is read and was not cached before |
| Locality.NewLookupsDistinct | src/2_predict_traits/locality_test.py:181-185 | no place is looked up twice |
| Locality.NewLookupsStep | src/2_predict_traits/locality_test.py:181-188 | a location read is looked up unless cached, and is cached afterwards |
| Locality.AssignLookups | src/2_predict_traits/locality_test.py:179-188 | the GeoNames queries of a call are exactly the uncached locations read, each at its first reading |
| Locality.GeoPreds.constructor | src/2_predict_traits/locality_test.py:60-81 | a `geo_preds` object holds valid regions and subregions tables |
| Locality.GeonamesCache.constructor | src/2_predict_traits/locality_test.py:35-40 | the cache starts from the given entries, with no lookups recorded |
| Locality.AssignToRegionOrSubregion | src/2_predict_traits/locality_test.py:166-202 | the new regions table, cache and lookups, and whether IndexError was raised, are those of running the passes in order. Each pass re-reads the current region keys. In the model the subregions table is unchanged; the Python lists it shares with the regions table are not (see "Left out"). The tables stay valid |
| Locality.ExampleEarlierLocationsMatter | src/2_predict_traits/locality_test.py:190-202 | Paris creates France with a flat entry. Lyon's top hit is Spain, but it goes to France because France is now a known region. The table renders as "France (P \| Lyon)" |
| Locality.ExampleRun | src/2_predict_traits/locality_test.py:190-202 | the two passes of that example: no IndexError, the regions table is France holding Paris flat and Lyon as a subregion, and both places are looked up once, in order |
| Locality.LocalityEntities | src/2_predict_traits/locality_test.py:100-101 | exactly the entities labelled FAC, GPE or LOC are kept |
| Locality.UnknownLocalities | src/2_predict_traits/locality_test.py:104-123 | an entity is kept exactly when its text is no region key, no subregion key and no `found_as` name of either |
| Locality.LocalityEntitiesAppend | src/2_predict_traits/locality_test.py:100-101 | the label filter distributes over concatenation, so it keeps the entities' order and duplicates |
| Locality.UnknownLocalitiesAppend | src/2_predict_traits/locality_test.py:104-123 | the filter keeps the order of the entities |
| Locality.PresentSlots | src/2_predict_traits/locality_test.py:103-123 | dropping the None slots gives the filtered entities in order |
| Locality.GetSpacyPreds | src/2_predict_traits/locality_test.py:84-123 | the loop that sets found predictions to None, followed by `filter(None, ...)`, returns exactly the unknown locality entities, in order |
| Locality.FirstNames | src/2_predict_traits/locality_test.py:212 | `[s[0] for s in subregions]` succeeds exactly when no entry is empty, and then gives each entry's first element |
| Locality.RegionParts | src/2_predict_traits/locality_test.py:209-213 | succeeds exactly when every region renders, and then gives one part per region, in key order |
| Locality.RegionPartsErrorPersists | src/2_predict_traits/locality_test.py:210-213 | the first region that raises IndexError decides the outcome |
| Locality.LocalityString | src/2_predict_traits/locality_test.py:205-215 | `format_locality_string` raises IndexError exactly when some region holds an empty subregion entry, an empty names list or an empty name |
| Locality.FormatLocalityString | src/2_predict_traits/locality_test.py:205-215 | the result is the "; "-join of one `"R (a \| b)"` part per region in insertion order, or the IndexError of an empty subregion entry |
| Locality.NoSubregionsRender | src/2_predict_traits/locality_test.py:212 | a region without subregions renders as "R ()" |
| Locality.FlatNameRendersFirstChar | src/2_predict_traits/locality_test.py:212 | a name stored flat renders as its first character |
| Locality.ExampleFormat | src/2_predict_traits/locality_test.py:209-215 | the example table formats as "France (P \| Lyon)" |
| LocalityParse.LineEnd | src/2_predict_traits/locality_test.py:257 | the line of a position ends at the next newline or at the end of the text |
| LocalityParse.LazyParen | src/2_predict_traits/locality_test.py:257 | the lazy `.+?(?= \()` ends just before the nearest " (" |
| LocalityParse.LastClose | src/2_predict_traits/locality_test.py:263 | the greedy `.+(?=\))` ends at the last ')' of the line |
| LocalityParse.StrippedEntries | src/2_predict_traits/locality_test.py:253 | reference definition used by the lemmas: there is one stripped entry per ';'-piece |
| LocalityParse.ParseAll | src/2_predict_traits/locality_test.py:256-269 | reference definition used by the lemmas: one (region, subregions) pair per entry |
| LocalityParse.ParsedEntries | src/2_predict_traits/locality_test.py:253-269 | reference definition used by the lemmas: one parsed pair per entry of the input |
| LocalityParse.PutAll | src/2_predict_traits/locality_test.py:269 | assigning the entries in order gives a valid ordered dictionary |
| LocalityParse.PutAllStep | src/2_predict_traits/locality_test.py:269 | one more entry is one more assignment |
| LocalityParse.PutFromAll | src/2_predict_traits/locality_test.py:256-269 | finishing the loop from any point gives the dictionary of all entries |
| LocalityParse.ParseLocalitiesAll | src/2_predict_traits/locality_test.py:249-271 | the dictionary the loop builds is the one got by assigning every parsed entry in order |
| LocalityParse.SearchRegionLeftmost | src/2_predict_traits/locality_test.py:257 | `re.search` for the region pattern finds nothing exactly when no position matches, and otherwise the match at the first position that does |
| LocalityParse.SearchSubregionsLeftmost | src/2_predict_traits/locality_test.py:263 | the same leftmost-match statement for the subregions pattern |
| LocalityParse.ParseEntry | src/2_predict_traits/locality_test.py:257-267 | with a region match the region is that match; without one it is the whole entry. Without a subregions match the list is empty; with one, the list is non-empty and its " \| "-join is the matched text |
| LocalityParse.ParseLocation | src/2_predict_traits/locality_test.py:257-267 | the two searches of the loop body give the entry's region and subregions |
| LocalityParse.GetLocalityDict | src/2_predict_traits/locality_test.py:249-271 | the result is the dictionary of the parsed entries, assigned in order |
| LocalityParse.Regions | src/2_predict_traits/locality_test.py:269 | reference definition used by the lemmas: the region of each entry, in order |
| LocalityParse.PutAllKeys | src/2_predict_traits/locality_test.py:254-269 | the keys are the distinct regions, in the order they first appear |
| LocalityParse.PutAllLast | src/2_predict_traits/locality_test.py:269 | a region's subregions come from the last entry that names it |
| LocalityParse.LastEntryWins | src/2_predict_traits/locality_test.py:256-271 | in `get_locality_dict`, a later entry for a region overwrites an earlier one |
| LocalityParse.PutAllDistinct | src/2_predict_traits/locality_test.py:254-269 | with distinct regions, the keys are the regions in entry order, each with its own subregions |
| LocalityParse.RegionNoneWithoutParens | src/2_predict_traits/locality_test.py:257 | without parentheses the region search finds nothing |
| LocalityParse.SubregionsNoneWithoutParens | src/2_predict_traits/locality_test.py:263 | without '(' the subregion search finds nothing |
| LocalityParse.EntryWithoutParens | src/2_predict_traits/locality_test.py:257-267 | an entry without parentheses parses to the whole entry with no subregions |
| LocalityParse.EmptyLocalities | src/2_predict_traits/locality_test.py:249-271 | the empty string parses to {"": []} |
| LocalityParse.JoinAvoids | src/2_predict_traits/locality_test.py:212 | joining names keeps out any character that neither the names nor the separator contain |
| LocalityParse.JoinNonEmpty | src/2_predict_traits/locality_test.py:212 | joining a list whose first name is non-empty gives a non-empty text |
| LocalityParse.LazyParenSkip | src/2_predict_traits/locality_test.py:257 | the lazy search passes over text without " (" or newline |
| LocalityParse.SearchSubregionsSkip | src/2_predict_traits/locality_test.py:263 | the subregion search passes over positions where nothing matches |
| LocalityParse.RegionOfText | src/2_predict_traits/locality_test.py:257 | in "R (...)" with a safe R, the region search finds R |
| LocalityParse.LineEndNoNewline | src/2_predict_traits/locality_test.py:257-263 | a text without newlines is one line |
| LocalityParse.SubregionsSkipRegion | src/2_predict_traits/locality_test.py:263 | the subregion search finds nothing inside a safe region name or its " (" |
| LocalityParse.JoinedNamesShape | src/2_predict_traits/locality_test.py:212 | safe names joined by " \| " contain no newline and no ')', and are non-empty when there are names |
| LocalityParse.SubregionsAtInner | src/2_predict_traits/locality_test.py:263 | right after '(' the greedy search takes everything up to the final ')' |
| LocalityParse.SubregionsAtEmpty | src/2_predict_traits/locality_test.py:263 | "()" holds no subregion match |
| LocalityParse.SubregionsOfText | src/2_predict_traits/locality_test.py:263 | in a formatted entry the subregion search finds the joined names, or nothing for "R ()" |
| LocalityParse.ParseRegionText | src/2_predict_traits/locality_test.py:257-267 | "R (a \| b)" parses to R with [a, b], and "R ()" to R with [] |
| LocalityParse.SplitSemicolonJoin | src/2_predict_traits/locality_test.py:253 | splitting a "; "-join on ';' gives the first part, then each later part with its leading space |
| LocalityParse.StrippedJoin | src/2_predict_traits/locality_test.py:253 | stripping the ';'-pieces of a "; "-join of trimmed parts without ';' gives the parts back |
| LocalityParse.RegionTextShape | src/2_predict_traits/locality_test.py:212 | a formatted part with safe names holds no ';' and is trimmed |
| LocalityParse.RegionTexts | src/2_predict_traits/locality_test.py:211-213 | reference definition used by the lemmas: one formatted part per region, in order |
| LocalityParse.ParseRegionTexts | src/2_predict_traits/locality_test.py:249-271 | parsing a "; "-join of formatted parts with distinct safe regions gives those regions in order, each with its names |
| LocalityParse.KeyNames | src/2_predict_traits/locality_test.py:212 | reference definition used by the lemmas: the first names of each region's subregions, in key order |
| LocalityParse.FormattedTexts | src/2_predict_traits/locality_test.py:209-215 | formatting a table without empty subregion entries joins one "R (names)" part per key |
| LocalityParse.LocalityRoundTrip | src/2_predict_traits/locality_test.py:205-271 | for a non-empty table with safe names, formatting and then parsing gives the keys in order, each mapped to the first elements of its subregion entries |
| OrderedTable.Empty | src/2_predict_traits/locality_test.py:254 | `{}` is a valid dictionary with no keys |
| OrderedTable.Put | src/2_predict_traits/locality_test.py:269 | assigning a key keeps the dictionary valid. A new key is added at the end; an existing key keeps its place and gets the new value |
| LabelledSpans.SplitSpanList | src/3_train_pipelines/microsp_host_relation_extraction/create_labelled_species_spans.py:41 | `re.split` with a capturing group gives an odd number of items |
| LabelledSpans.SplitSpanListPiecesFree | src/3_train_pipelines/microsp_host_relation_extraction/create_labelled_species_spans.py:41 | the pieces at the even places contain neither "; " nor "\|\| ". With the two lemmas below this fixes the split: the input is cut at every occurrence of either separator |
| LabelledSpans.SplitSpanListConcat | src/3_train_pipelines/microsp_host_relation_extraction/create_labelled_species_spans.py:41 | the pieces and separators concatenate back to the input |
| LabelledSpans.SplitSpanListSeparators | src/3_train_pipelines/microsp_host_relation_extraction/create_labelled_species_spans.py:41 | the separators "; " and "\|\| " sit at the odd places |
| LabelledSpans.KeptAppend | src/3_train_pipelines/microsp_host_relation_extraction/create_labelled_species_spans.py:41-42 | the piece filter distributes over concatenation, so it keeps the pieces' order and duplicates |
| LabelledSpans.Kept | src/3_train_pipelines/microsp_host_relation_extraction/create_labelled_species_spans.py:41-42 | keeps exactly the pieces other than '; ', '\|\| ', '' and ' ' |
| LabelledSpans.PieceSpan | src/3_train_pipelines/microsp_host_relation_extraction/create_labelled_species_spans.py:41-44 | a piece gives a triple exactly when it has one hyphen and both sides are integers. The triple holds those integers and the label |
| LabelledSpans.Collect | src/3_train_pipelines/microsp_host_relation_extraction/create_labelled_species_spans.py:44 | the list comprehension succeeds exactly when every element does, and then holds every value in order |
| LabelledSpans.FirstErrorRaised | src/3_train_pipelines/microsp_host_relation_extraction/create_labelled_species_spans.py:44 | the error raised is that of the first element that fails |
| LabelledSpans.PieceResults | src/3_train_pipelines/microsp_host_relation_extraction/create_labelled_species_spans.py:44 | reference definition used by the lemmas: the result of each kept piece, in order |
| LabelledSpans.PieceSpans | src/3_train_pipelines/microsp_host_relation_extraction/create_labelled_species_spans.py:44 | the triples succeed exactly when every piece parses, one per piece, in order |
| LabelledSpans.GetSpans | src/3_train_pipelines/microsp_host_relation_extraction/create_labelled_species_spans.py:37-44 | every triple carries the given label |
| LabelledSpans.GetSpansPieces | src/3_train_pipelines/microsp_host_relation_extraction/create_labelled_species_spans.py:40-44 | `get_spans` succeeds exactly when every kept piece parses, and then gives one triple per kept piece, in order |
| LabelledSpans.EmptySpanList | src/3_train_pipelines/microsp_host_relation_extraction/create_labelled_species_spans.py:40-44 | the empty string gives [] |
| LabelledSpans.SpanText | src/3_train_pipelines/microsp_host_relation_extraction/create_labelled_species_spans.py:41 | reference definition used by the lemmas: "i-j" has at least three characters |
| LabelledSpans.SpanTexts | src/3_train_pipelines/microsp_host_relation_extraction/create_labelled_species_spans.py:41 | reference definition used by the lemmas: one "i-j" text per pair, in order |
| LabelledSpans.SplitSpanListPlain | src/3_train_pipelines/microsp_host_relation_extraction/create_labelled_species_spans.py:41 | text without ';' or '\|' is not split |
| LabelledSpans.SplitSpanListCons | src/3_train_pipelines/microsp_host_relation_extraction/create_labelled_species_spans.py:41 | a piece without separator characters followed by "; " or "\|\| " splits into that piece, the separator, then the split of the rest |
| LabelledSpans.SpanTextPlain | src/3_train_pipelines/microsp_host_relation_extraction/create_labelled_species_spans.py:41-42 | "i-j" holds no separator character and is not dropped |
| LabelledSpans.SpanTextParses | src/3_train_pipelines/microsp_host_relation_extraction/create_labelled_species_spans.py:41-44 | "i-j" parses to (i, j, label) |
| LabelledSpans.RoundTripPieces | src/3_train_pipelines/microsp_host_relation_extraction/create_labelled_species_spans.py:41-42 | the kept pieces of a "; "-join of "i-j" texts are those texts |
| LabelledSpans.SpanListRoundTrip | src/3_train_pipelines/microsp_host_relation_extraction/create_labelled_species_spans.py:40-44 | "; "-joined "i-j" texts of non-negative pairs parse back to the same pairs, in order, with the label |
| LabelledSpans.RoundTripPiecesWith | src/3_train_pipelines/microsp_host_relation_extraction/create_labelled_species_spans.py:41-42 | the kept pieces of "i-j" texts separated by any mix of "; " and "\|\| " are those texts |
| LabelledSpans.SpanTextsParse | src/3_train_pipelines/microsp_host_relation_extraction/create_labelled_species_spans.py:42-44 | every "i-j" text of a non-negative pair parses to its triple |
| LabelledSpans.CollectAllOk | src/3_train_pipelines/microsp_host_relation_extraction/create_labelled_species_spans.py:44 | a list comprehension whose every element succeeds gives the elements in order |
| LabelledSpans.MixedSpanListRoundTrip | src/3_train_pipelines/microsp_host_relation_extraction/create_labelled_species_spans.py:40-44 | "i-j" texts of non-negative pairs, separated by any mix of "; " and "\|\| ", parse back to the same pairs, in order, with the label |
| LabelledSpans.PrefixNotStarting | src/3_train_pipelines/microsp_host_relation_extraction/create_labelled_species_spans.py:41 | a text that does not start with a separator has no prefix that does |
| LabelledSpans.SplitTwoHyphens | src/3_train_pipelines/microsp_host_relation_extraction/create_labelled_species_spans.py:41 | "1-2-3" splits at both hyphens |
| LabelledSpans.TwoHyphensRaise | src/3_train_pipelines/microsp_host_relation_extraction/create_labelled_species_spans.py:41-44 | a piece with two hyphens raises the unpacking ValueError |
| SpacyExtractTraits.ReplaceChar | src/2_predict_traits/spacy_extract_traits.py:57 | `replace` maps every occurrence of the character and keeps the length |
| SpacyExtractTraits.SqueezeSpaces | src/2_predict_traits/spacy_extract_traits.py:57 | `re.sub(' +', ' ', s)` leaves no two adjacent spaces, adds no character and keeps the first one |
| SpacyExtractTraits.CleanText | src/2_predict_traits/spacy_extract_traits.py:53-57 | the output has no leading or trailing whitespace |
| SpacyExtractTraits.WordLength | src/2_predict_traits/spacy_extract_traits.py:57 | the first word ends at the first space, tab or newline |
| SpacyExtractTraits.WordLengthUnique | src/2_predict_traits/spacy_extract_traits.py:57 | the first word's length is determined by where its blank falls |
| SpacyExtractTraits.WordsCongruent | src/2_predict_traits/spacy_extract_traits.py:57 | texts whose characters agree, up to which blank is used, have the same words |
| SpacyExtractTraits.WordsCons | src/2_predict_traits/spacy_extract_traits.py:57 | a word followed by a blank contributes that word first |
| SpacyExtractTraits.WordsSqueeze | src/2_predict_traits/spacy_extract_traits.py:57 | squeezing spaces keeps the words |
| SpacyExtractTraits.WordsOfBlanks | src/2_predict_traits/spacy_extract_traits.py:57 | a text of blanks has no words |
| SpacyExtractTraits.WordsAppendBlanks | src/2_predict_traits/spacy_extract_traits.py:57 | trailing blanks add no words |
| SpacyExtractTraits.WordsDropBlanks | src/2_predict_traits/spacy_extract_traits.py:57 | leading blanks add no words |
| SpacyExtractTraits.JoinWordsCanonical | src/2_predict_traits/spacy_extract_traits.py:57 | a text of single-spaced words is the join of its words |
| SpacyExtractTraits.SpacesOnlyAfterReplace | src/2_predict_traits/spacy_extract_traits.py:57 | after the two replaces, the only whitespace left is the space |
| SpacyExtractTraits.WordsOfStripped | src/2_predict_traits/spacy_extract_traits.py:57 | stripping keeps the words |
| SpacyExtractTraits.CanonicalStripped | src/2_predict_traits/spacy_extract_traits.py:57 | stripping a squeezed text gives single-spaced words |
| SpacyExtractTraits.CleanTextIsJoinOfWords | src/2_predict_traits/spacy_extract_traits.py:54-57 | when space, tab and newline are its only whitespace, the cleaned text is its words joined by single spaces |
| SpacyExtractTraits.NoTabOrNewlineAfterClean | src/2_predict_traits/spacy_extract_traits.py:57 | the output contains no tab and no newline |
| SpacyExtractTraits.NoDoubleSpaceAfterClean | src/2_predict_traits/spacy_extract_traits.py:57 | the output never contains two adjacent spaces |
| SpacyExtractTraits.ReplaceAbsent | src/2_predict_traits/spacy_extract_traits.py:57 | replacing an absent character changes nothing |
| SpacyExtractTraits.SqueezeNoop | src/2_predict_traits/spacy_extract_traits.py:57 | squeezing a text without double spaces changes nothing |
| SpacyExtractTraits.CleanTextIdempotent | src/2_predict_traits/spacy_extract_traits.py:53-57 | cleaning a cleaned text changes nothing |
| SpacyExtractTraits.PredictTaxonerdHosts | src/2_predict_traits/spacy_extract_traits.py:131-152 | it raises ValueError exactly when the input does not split into two parts on ' ::: '. It gives '' when the tagger finds nothing; otherwise it gives the filtered distinct names of the text part, with the first part as the parasite name |
| SpacyExtractTraits.PredictOnMergedInput | src/2_predict_traits/spacy_extract_traits.py:140-152 | on "parasite ::: text" with one marker, the result is that of the two-argument `predict_taxonerd_hosts` |
| SpacyExtractTraits.PredictWithoutMarker | src/2_predict_traits/spacy_extract_traits.py:140 | without ' ::: ' the unpack raises ValueError |
| FeatureExtraction.CleanText | src/spacy_feature_extraction/spacy_extract_traits.py:34-38 | agrees with the other `clean_text` on every input, and is the single-spaced join of the words when only space, tab and newline occur as whitespace |
| HostFilter.KeepHostNames | src/2_predict_traits/predict_microsp_and_host_names.py:117-119 | keeps exactly the names that contain neither the parasite name nor "[Mm]icrosp", and keeps distinct names distinct |
| HostFilter.KeepHostNamesAppend | src/2_predict_traits/predict_microsp_and_host_names.py:117-119 | the filter keeps the order of its input: filtering a concatenation concatenates the filtered parts |
| HostFilter.MentionsMicrospSearch | src/2_predict_traits/predict_microsp_and_host_names.py:118 | `re.search('[Mm]icrosp', s)` succeeds exactly when 'M' or 'm' followed by "icrosp" occurs at some position of s |
| HostFilter.HostNames | src/2_predict_traits/predict_microsp_and_host_names.py:113-119 | the host names are distinct and are exactly the tagger texts that pass the filter |
| HostFilter.EmptyParasiteKeepsNone | src/2_predict_traits/spacy_extract_traits.py:148-150 | an empty parasite name rejects every candidate, because '' is in every string |
| HostFilter.EmptyParasiteExcludesAll | src/2_predict_traits/predict_microsp_and_host_names.py:113-119 | with an empty prediction no host is left |
| MicrospAndHostNames.PySlice | src/2_predict_traits/predict_microsp_and_host_names.py:59 | Python slicing clamps both bounds to the string |
| MicrospAndHostNames.Candidates | src/2_predict_traits/predict_microsp_and_host_names.py:53-60 | one candidate per match, in match order; candidate k is `txt[start:end + 1]` of match k with the indicators removed and the ends stripped |
| MicrospAndHostNames.CandidatesSnoc | src/2_predict_traits/predict_microsp_and_host_names.py:53-60 | one more match appends one more candidate |
| MicrospAndHostNames.CandidatesTrimmed | src/2_predict_traits/predict_microsp_and_host_names.py:59 | every candidate has no whitespace at either end |
| MicrospAndHostNames.MicrospSpecies | src/2_predict_traits/predict_microsp_and_host_names.py:62-63 | every candidate occurs in the returned string |
| MicrospAndHostNames.GetNewMicrospSpecies | src/2_predict_traits/predict_microsp_and_host_names.py:43-63 | the result is the "; "-join of the distinct candidates, each cut from `txt[start:end + 1]`, indicator-stripped and trimmed |
| MicrospAndHostNames.SliceTakesNextChar | src/2_predict_traits/predict_microsp_and_host_names.py:59 | the slice takes one character past the match end when there is one |
| MicrospAndHostNames.NoMatchNoSpecies | src/2_predict_traits/predict_microsp_and_host_names.py:50-63 | no match gives '' |
| MicrospAndHostNames.SpeciesRoundTrip | src/2_predict_traits/predict_microsp_and_host_names.py:62-63 | splitting the result on "; " gives distinct names, exactly the candidates, each trimmed |
| MicrospAndHostNames.PredictTaxonerdHosts | src/2_predict_traits/predict_microsp_and_host_names.py:99-121 | gives '' when the tagger finds nothing or when every name is filtered out |
| MicrospAndHostNames.HostsRoundTrip | src/2_predict_traits/predict_microsp_and_host_names.py:111-119 | splitting the result on "; " gives distinct names, exactly the tagger texts without the `microsp` string or "[Mm]icrosp" |
| SporeNucleus.CountTableKeys | src/2_predict_traits/predict_spore_nucleus_count.py:23-40 | the keys of the constant `NucleusCount` (`nucleus_count`) are exactly the entries of the constant `NucleusTerms` (`nucleus_terms`) |
| SporeNucleus.CountTableValues | src/2_predict_traits/predict_spore_nucleus_count.py:32-40 | the count is 2 for "nuclei", the diplo- terms, binucleate and binuclear, and 1 for every other term |
| SporeNucleus.NucleusSentences | src/2_predict_traits/predict_spore_nucleus_count.py:89-90 | a sentence is kept exactly when it has a nucleus match and no immature-spore match |
| SporeNucleus.NucleusSentencesAppend | src/2_predict_traits/predict_spore_nucleus_count.py:89-90 | the selection keeps sentence order |
| SporeNucleus.SporeName | src/2_predict_traits/predict_spore_nucleus_count.py:100-107 | no spore match gives 'normal spore', and so does a first lemma of 'spore'; otherwise the name is that lemma |
| SporeNucleus.SporeNucleusInfo | src/2_predict_traits/predict_spore_nucleus_count.py:96-112 | succeeds exactly when every lowered first nucleus term is in the table. It then gives one (name, count) row per sentence, in order |
| SporeNucleus.Entries | src/2_predict_traits/predict_spore_nucleus_count.py:114 | reference definition used by the lemmas: one "N (name)" entry per row, in order |
| SporeNucleus.SporeNucleusText | src/2_predict_traits/predict_spore_nucleus_count.py:89-114 | `predict_spore_nucleus` raises KeyError exactly when a sentence with nucleus data has a nucleus term the count table lacks |
| SporeNucleus.PredictSporeNucleus | src/2_predict_traits/predict_spore_nucleus_count.py:80-114 | the "; "-join of the entries of the kept sentences, or the KeyError of the first term the table lacks |
| SporeNucleus.InfoStep | src/2_predict_traits/predict_spore_nucleus_count.py:97-112 | one more sentence either adds one row or raises the KeyError of its term |
| SporeNucleus.InfoErrorPersists | src/2_predict_traits/predict_spore_nucleus_count.py:110 | the first KeyError decides the outcome |
| SporeNucleus.TextErrorAt | src/2_predict_traits/predict_spore_nucleus_count.py:109-110 | the first kept sentence whose term is missing from the table raises that term's KeyError |
| SporeNucleus.NoNucleusSentences | src/2_predict_traits/predict_spore_nucleus_count.py:89-90 | without nucleus data no sentence is kept |
| SporeNucleus.NoNucleusDataGivesEmpty | src/2_predict_traits/predict_spore_nucleus_count.py:89-114 | no sentence with nucleus data gives '' |
| SporeNucleus.EntryFree | src/2_predict_traits/predict_spore_nucleus_count.py:114 | an entry holds no ';' when its spore name holds none |
| SporeNucleus.OneEntryPerNucleusSentence | src/2_predict_traits/predict_spore_nucleus_count.py:89-114 | when every term is in the table and no kept sentence's spore name holds ';', splitting the output on "; " gives one "N (name)" per kept sentence, in order, with N equal to 1 or 2 |
| Strings.ContainsAt | src/2_predict_traits/predict_microsp_and_host_names.py:117 | `sub in s` holds exactly when sub occurs at some position of s |
| Strings.ContainsSuffix | src/2_predict_traits/predict_microsp_and_host_names.py:117 | text in b still occurs in a + b |
| Strings.JoinHoldsParts | src/2_predict_traits/predict_microsp_and_host_names.py:63 | every part of a join occurs in the joined text |
| Strings.JoinHoldsMembers | src/2_predict_traits/predict_microsp_and_host_names.py:63 | every member of the joined list occurs in the joined text |
| Strings.Split | src/2_predict_traits/locality_test.py:253 | `split` gives at least one part |
| Strings.JoinCons | src/2_predict_traits/locality_test.py:215 | joining with a first part puts the separator after it |
| Strings.JoinSplit | src/2_predict_traits/locality_test.py:253 | joining the split parts with the same separator gives the text back |
| Strings.SplitConcat | src/2_predict_traits/locality_test.py:253 | the split of "a" + sep + "b" is a followed by the split of b, when no separator starts inside a |
| Strings.SplitWhole | src/2_predict_traits/locality_test.py:253 | text without the separator splits into itself |
| Strings.FreeOfNoMatch | src/2_predict_traits/locality_test.py:253 | a piece free of the separator's characters holds no occurrence of it |
| Strings.SplitJoin | src/2_predict_traits/locality_test.py:253 | splitting a join recovers the parts when none can hold the separator |
| Strings.Strip | src/2_predict_traits/locality_test.py:253 | the result has no leading or trailing whitespace |
| Strings.StripSlice | src/2_predict_traits/locality_test.py:253 | `strip` removes whitespace only, from the two ends |
| Strings.StripNoop | src/2_predict_traits/locality_test.py:253 | a trimmed text is unchanged |
| Strings.StripAfterSpace | src/2_predict_traits/locality_test.py:253 | " " + a trimmed text strips to that text |
| Strings.Lower | src/2_predict_traits/predict_spore_nucleus_count.py:109 | `lower()` maps each character and keeps the length |
| Strings.NatToString | src/2_predict_traits/predict_spore_nucleus_count.py:110 | `str(n)` is a non-empty string of digits |
| Strings.NatToStringValue | src/2_predict_traits/predict_spore_nucleus_count.py:110 | the digits of `str(n)` denote n |
| Strings.ParseInt | src/3_train_pipelines/microsp_host_relation_extraction/create_labelled_species_spans.py:44 | `int(s)` accepts only text whose stripped form is non-empty and ends in a digit, and gives a negative value only after a minus sign |
| Strings.ParseIntOfNatToString | src/3_train_pipelines/microsp_host_relation_extraction/create_labelled_species_spans.py:44 | `int(str(n)) == n` |
| Strings.Unique | src/2_predict_traits/predict_microsp_and_host_names.py:113 | `list(set(xs))` holds each element of xs exactly once |

## Left out

- The NLP and geographic libraries are not modelled. These are spaCy, the phrase and token matchers, flashgeotext, GeoNames, TaxoNERD and scispaCy. Their results are parameters: entity lists, hit lists, matcher results, tagger texts, match spans and the indicator-stripping function.
- Regular expressions are modelled only in part. The species, new-species-indicator, polar-tube and micron patterns are not modelled; their matches are inputs. The two patterns of `get_locality_dict`, `re.split(r'(; |\|\| )')` and `[Mm]icrosp` are written out as scanners.
- `predict_localities`, `normalize_recorded_localities`, `get_flashgeotext_preds` and `remove_leading_determinant` are not modelled. They only arrange library calls, or reshape library output.
- CSV and pandas I/O are not modelled, nor are pickle loading of the cache, `time.sleep`, the `main()` functions and the other scripts of the repository.
- `get_labelled_entity_spans` is not modelled: it is CSV I/O.
- Locality.AssignToRegionOrSubregion: aliasing of the `found_as` lists is not modelled. In Python, a region created from a subregion's country holds the caller's list `found_as[i]` itself. A later append changes that list, and every other holder of it. Here every table entry is a value.
- Locality.AssignToRegionOrSubregion: in the second call (locality_test.py:243-244) `found_as[i]` is the subregion's own `found_as` list. A region created flat from it and later appended to therefore also grows that subregion's `found_as` in Python. The model's "subregions table unchanged" does not capture this.
- Locality.AssignToRegionOrSubregion: the GeoNames search is deterministic here, a function of the place name. `maxRows=50` and the user name are properties of that function, not of the model.
- Locality.GetSpacyPreds: `filter(None, ...)` also drops an entity whose span is falsy. The entities here are never falsy.
- Locality.MostLikelyRegion: the falsy country of `not loc_region` is modelled as None or "". Country names are other strings.
- Strings.Unique: the order of `list(set(...))` is unspecified in Python. The model uses first-occurrence order, and the contracts state only membership and distinctness.
- Strings.Lower: only ASCII letters are lower-cased.
- Strings.ParseInt: `int()` accepts ASCII digits only here. Python also accepts other Unicode decimal digits.
- LocalityParse.LocalityRoundTrip: holds for a non-empty table only. For an empty table, `''` parses to `{"": []}`, as EmptyLocalities states. It also needs region names and first names that are non-empty, trimmed, and free of ';', '(', ')', '|' and newlines.
- LabelledSpans.SpanListRoundTrip: holds for non-empty lists of non-negative pairs only. The empty list is EmptySpanList.
- MicrospAndHostNames.PredictTaxonerdHosts: the tagger's prediction table is its `text` column. "empty" is an empty column.
- SporeNucleus.PredictSporeNucleus: which token gives the first nucleus term and the spore lemma is an input of each sentence. The script indexes `doc` where it matched on `sent`; that indexing is not modelled.
- The other trait modules of the feature-extraction script are not modelled: they fail at import. The spore-shape, polar-tube, host-tissue and locality-matcher scripts are not modelled either: they are library calls, or they do not parse.
