# philter-lite span engine in Dafny

This project models the span-resolution core of philter-lite, a tool that
de-identifies clinical notes. It has four parts:

- **`CoordinateMaps`** (`coordinate_map.dfy`) is the interval store. It maps
  the start of a character interval to its stop. `CoordinateMap` is a class
  with the fields the Python class updates in place: the dict (`stopOf`, with
  its insertion order in `order`), `all_coords` and `coord2pattern`. Its
  methods `Add`, `Remove` and `AddExtend` are proved to change the object's
  value (`State()`) exactly as the functions `Insert`, `Delete` and `Extend`
  say. `AddPattern` is proved against its update of `coord2pattern`. The
  read-only methods (`does_exist`, `get_coords`, `filecoords`,
  `does_overlap`, `max_overlap`, `get_complement`) are functions of that
  value.
- **`Detectors`** (`detectors.dfy`) turns text into candidate spans:
  - `get_clean`;
  - the part-of-speech walkers `map_set` and `map_pos`;
  - `map_regex` and `match_all`;
  - the decision and sub-span part of `map_regex_context`;
  - the dispatch loop of `find_phi`.

  The part-of-speech tagger and the regex engine's `finditer` are function
  parameters.
- **`Resolution`** (`resolution.dfy`) is `get_exclude_include_maps`. It walks
  one filter's spans in ascending start order and merges them into the
  include map, the exclude map and the per-type PHI map, and it logs each
  admitted include span. The walk is written once over any map type and its
  three operations (`Resolve`), and its properties are proved there.
  `GetExcludeIncludeMaps` runs the same walk over the mutable map objects.
- **`Render`** (`render.dfy`) holds the two outputs:
  - `transform_text_asterisk` is a cursor loop that copies included spans and
    masks every other alphanumeric character or `*`;
  - `transform_text_i2b2` assembles the i2b2 XML document.

  Each is proved against a specification function (`Mask`, `I2b2`). The
  properties proved about those functions are pointwise masking over
  intervals that nest or lie apart, the fixed frame of the document, and the
  read-back of every tag from the output.

`Text` (`text.dfy`) holds the Python string helpers the core relies on:
`re.split(r"(\s+)")`, the `[a-zA-Z0-9]` substitutions, slicing with Python
semantics and `str(int)`. `Records` (`records.dfy`) holds the dataclasses.

Three behaviours of the code are easy to misread, and the model keeps them as
written:

- **`add_extend` with two or more overlaps.** The docstring of `max_overlap`
  (`philter_lite/coordinate_map.py:155`) promises the "max of all overlaps",
  and `add_extend`'s docstring says a hit "will extend to the larger size".
  With two or more overlaps, though, `add_extend` (lines 74-79) stores
  `(overlaps[-1].new_start, overlaps[0].new_stop)`. Its comment assumes that
  `overlaps` is sorted, but `max_overlap` lists it in the dict's insertion
  order (`CoordinateMaps.MaxOverlapInOrder`). So the stored span depends on
  that order. `CoordinateMaps.ExtendAscendingGivesNewSpan`: with `[1,3)`
  stored before `[5,7)`, extending with `[2,6)` leaves `{2: 6}` and drops both
  outer parts. `CoordinateMaps.ExtendDescendingGivesUnion`: with `[5,7)`
  stored first, the same call leaves the union `{1: 7}`.
- **A `match_all` include filter.** `match_all`
  (`philter_lite/philter.py:365-368`) yields the single pair
  `(0, len(text))`, the whole text `[0, len(text))`. `get_exclude_include_maps`
  admits an include span only when `exclude_map.does_overlap(start, stop)` is
  false (line 530). `does_overlap` tests every index of `0..len(text)` against
  every stored `[key, map[key]]`, both ends included. So once an earlier
  exclude filter has stored any interval that meets `[0, len(text)]`, the
  `match_all` filter leaves the include map unchanged and logs nothing
  (`Resolution.IncludeNext`). It does not claim the text around the excluded
  parts.
- **`find_phi` and `regex_context` filters.** `find_phi` never runs
  `map_regex_context`: the call is commented out. A `regex_context` filter
  therefore contributes no hits there (`Detectors.PatternHits`).

## Model

| member | source | states |
|---|---|---|
| Text.SplitWsSpec | philter_lite/philter.py:205 | `re.split(r"(\s+)", s)` yields pieces that alternate between whitespace-free and all-whitespace and that join back to `s`; the whitespace runs are maximal, because every whitespace-free piece between two runs is non-empty |
| Text.Scrub | philter_lite/philter.py:210 | every character outside `[a-zA-Z0-9]` becomes one space, and nothing else changes |
| Text.CleanWord | philter_lite/philter.py:396 | the cleaned word is empty exactly when the word has no ASCII letter or digit |
| Text.Slice | philter_lite/philter.py:536 | `txt[start:stop]` is the ordinary slice when the bounds are in range, and never longer than the text |
| Text.NatToStringRoundTrip | philter_lite/philter.py:609 | `str(i)` of a tag index parses back to the index |
| Text.IntToStringRoundTrip | philter_lite/philter.py:611-613 | `str(start)` / `str(stop)` is an optional `-` then digits, and parses back to the number |
| CoordinateMaps.CoordinateMap.constructor | philter_lite/coordinate_map.py:25-29 | a new map is empty and well formed |
| CoordinateMaps.CoordinateMap.Add | philter_lite/coordinate_map.py:31-48 | the call succeeds iff `overlap` is set or the span touches no stored interval; on success the key is stored and `[start, stop)` covered; on refusal nothing changes and the error message is returned |
| CoordinateMaps.CoordinateMap.AddPattern | philter_lite/coordinate_map.py:50-53 | `coord2pattern[start]` becomes the one-element list `[pattern]`; the other fields stay unchanged |
| CoordinateMaps.CoordinateMap.Remove | philter_lite/coordinate_map.py:83-92 | the key `start` (if stored) and the covered indices `start..stop` inclusive are dropped; always `(True, None)` |
| CoordinateMaps.CoordinateMap.ClearOverlaps | philter_lite/coordinate_map.py:62-64 | every reported interval's key is removed, in order |
| CoordinateMaps.CoordinateMap.AddExtend | philter_lite/coordinate_map.py:55-81 | the map's new value is `Extend` of the old one; the map stays well formed; always `(True, None)` |
| CoordinateMaps.Insert | philter_lite/coordinate_map.py:41-44 | the key set gains `start` with stop `stop`, other keys keep their stops, and `[start, stop)` joins the covered set |
| CoordinateMaps.Delete | philter_lite/coordinate_map.py:86-91 | the key set loses `start`, other stops are kept, and `start..stop` inclusive leaves the covered set; a missing key leaves the dict as it was |
| CoordinateMaps.RemoveAll | philter_lite/coordinate_map.py:62-64 | exactly the reported original starts leave the key set, and the remaining stops are unchanged |
| CoordinateMaps.InsertWf | philter_lite/coordinate_map.py:41 | storing a key keeps the recorded dict order a duplicate-free listing of the keys |
| CoordinateMaps.DeleteWf | philter_lite/coordinate_map.py:86-87 | deleting a key keeps the recorded dict order a duplicate-free listing of the keys |
| CoordinateMaps.RemoveAllWf | philter_lite/coordinate_map.py:62-64 | removing the reported intervals keeps the map well formed |
| CoordinateMaps.GetCoords | philter_lite/coordinate_map.py:106-120 | `get_coords(i)` returns a pair iff `does_exist(i)` holds, and the pair is `(i, map[i])` |
| CoordinateMaps.SortKeys | philter_lite/coordinate_map.py:112 | `sorted(map.keys())` is strictly ascending and holds exactly the keys |
| CoordinateMaps.FileCoords | philter_lite/coordinate_map.py:110-114 | `filecoords()` lists every stored `(start, stop)` exactly once, in strictly ascending start order |
| CoordinateMaps.Overlaps | philter_lite/coordinate_map.py:122-130 | `does_overlap(start, stop)` holds iff some index of `start..stop` lies in some stored `key..map[key]` (both ends inclusive) |
| CoordinateMaps.Merge | philter_lite/coordinate_map.py:163-188 | a reported interval's record keeps its original bounds and its new span contains the query span; when the interval contains `start`, the new span is `(s, max(stop, e))`, otherwise it is `(min(start, s), e)` |
| CoordinateMaps.MaxOverlap | philter_lite/coordinate_map.py:154-190 | every record is for a stored interval the query touches, merged by the source's case split |
| CoordinateMaps.MaxOverlapReportsExactly | philter_lite/coordinate_map.py:160-190 | every stored interval that meets the source's two tests is reported, and only stored keys are reported |
| CoordinateMaps.MaxOverlapInOrder | philter_lite/coordinate_map.py:160-161 | the records come in the dict's key order: for any two records, the first one's key comes earlier in the insertion order |
| CoordinateMaps.NothingReported | philter_lite/coordinate_map.py:160-190 | when no stored interval meets the tests, `max_overlap` is empty |
| CoordinateMaps.ExtendWf | philter_lite/coordinate_map.py:55-81 | `add_extend` keeps the map well formed |
| CoordinateMaps.ExtendCoversNew | philter_lite/coordinate_map.py:66-79 | the stored merged span contains `[start, stop]` |
| CoordinateMaps.ExtendReplacesReported | philter_lite/coordinate_map.py:66-79 | every reported interval other than the merged key is gone; every unreported interval survives with its stop |
| CoordinateMaps.ExtendKeepsInner | philter_lite/coordinate_map.py:163-188 | an interval strictly inside the new span is not reported, so it survives `add_extend` |
| CoordinateMaps.ExtendWithoutOverlap | philter_lite/coordinate_map.py:66-68 | with no reported overlap, `add_extend` is a plain `add` |
| CoordinateMaps.ExtendAscendingGivesNewSpan | philter_lite/coordinate_map.py:74-79 | stored `[1,3)` and `[5,7)` in that order, extended with `[2,6)`, leave only `{2: 6}` |
| CoordinateMaps.ExtendDescendingGivesUnion | philter_lite/coordinate_map.py:74-79 | the same intervals stored in the opposite order leave `{1: 7}` |
| CoordinateMaps.Complement | philter_lite/coordinate_map.py:192-226 | `get_complement` returns disjoint, maximal runs inside the text; an index is in a run iff it is uncovered and in `[a-zA-Z0-9*]` |
| Detectors.GetClean | philter_lite/philter.py:203-216 | the method's list is `Clean(text)` |
| Detectors.AppendCleanPiece | philter_lite/philter.py:208-215 | one item of the split adds its cleaned sub-pieces, or itself when it is whitespace |
| Detectors.AppendNonEmpty | philter_lite/philter.py:211-213 | the non-empty pieces are appended in order |
| Detectors.CleanSpellsText | philter_lite/philter.py:203-216 | every cleaned piece is an alphanumeric run or a whitespace run; joined, they spell the text with non-alphanumerics blanked, so their lengths add up to `len(text)` |
| Detectors.Keeps | philter_lite/philter.py:396-403 | a tagged word is kept iff its cleaned form is non-empty and the rule accepts it |
| Detectors.Accepts | philter_lite/philter.py:402-403 | the set test (POS check when `pos` is non-empty; cleaned or raw word in the set), or the POS test of `map_pos` |
| Detectors.VisitWord | philter_lite/philter.py:389-409 | one iteration appends the word's span iff the word is kept |
| Detectors.WalkTagged | philter_lite/philter.py:388-411 | the loop's result is the walk over all tagged words |
| Detectors.MapSet | philter_lite/philter.py:371-411 | `map_set` returns the walk with the set rule over the tagging of `get_clean(text)` |
| Detectors.MapPos | philter_lite/philter.py:414-444 | `map_pos` returns the walk with the POS rule over the tagging of `get_clean(text)` |
| Detectors.WalkSound | philter_lite/philter.py:388-411 | every entry of the walk is the span of a kept word |
| Detectors.WalkComplete | philter_lite/philter.py:388-411 | every kept word's span is in the walk |
| Detectors.WalkEmitsExactly | philter_lite/philter.py:388-411 | a word's span is emitted iff the word is kept |
| Detectors.RuleWalkAscending | philter_lite/philter.py:388-411 | the emitted spans come in text order without overlap: each earlier span is non-empty and ends at or before the next one starts |
| Detectors.SpanPointsAtWord | philter_lite/philter.py:385-393 | when the tagger returns the cleaned words, the span of a kept word spells that word in the text |
| Detectors.MapRegex | philter_lite/philter.py:262-277 | one entry per match, in match order, with the match's start and end |
| Detectors.MatchAll | philter_lite/philter.py:365-368 | exactly one entry, `(0, len(text))`, for the filter |
| Detectors.ContextMask | philter_lite/philter.py:314-358 | a match passes iff its context (`left`, `right`, `left_or_right`, `left_and_right`) holds for "match starts at a PHI stop" and "match ends at a PHI start" |
| Detectors.TokenizeMatch | philter_lite/philter.py:335-350 | the tokenized spans are the alphanumeric pieces of the scrubbed match, offset by the match start |
| Detectors.AppendEntries | philter_lite/philter.py:359-360 | each tokenized span is appended as an entry of the filter |
| Detectors.MapRegexContext | philter_lite/philter.py:280-362 | the results are `ContextHits` over the regex's matches |
| Detectors.MatchSpanIsAlnumRun | philter_lite/philter.py:335-350 | each sub-span of a match is a maximal run of `[a-zA-Z0-9]` inside the match |
| Detectors.MatchSpansCover | philter_lite/philter.py:335-350 | every alphanumeric character of a match lies in one of its sub-spans |
| Detectors.ContextHitsSound | philter_lite/philter.py:312-360 | every result comes from a match whose context holds, and is one of its sub-spans |
| Detectors.ContextHitsComplete | philter_lite/philter.py:312-360 | every sub-span of a match whose context holds is in the results |
| Detectors.PatternHits | philter_lite/philter.py:228-243 | a pattern yields hits iff its type string matches its class (or is `match_all`); `stanford_ner` fails on the missing tagger argument, any other type with "not supported"; `match_all` gives the whole text, `regex_context` nothing |
| Detectors.DispatchPattern | philter_lite/philter.py:228-243 | the branch's outcome is `PatternHits` |
| Detectors.FindPhi | philter_lite/philter.py:219-259 | the loop's outcome is the patterns' hits concatenated in order, or the first exception |
| Detectors.FindPhiSucceeds | philter_lite/philter.py:228-244 | `find_phi` returns iff every pattern is supported |
| Detectors.FindPhiFirstFailure | philter_lite/philter.py:242-243 | on failure, the error is that of the first unsupported pattern |
| Detectors.FindPhiSound | philter_lite/philter.py:228-244 | every hit of `find_phi` is a hit of one pattern |
| Detectors.FindPhiComplete | philter_lite/philter.py:228-244 | every hit of every pattern is in `find_phi`'s result |
| Detectors.FindPhiFilters | philter_lite/philter.py:228-259 | every hit names one of the patterns, and none names a `regex_context` filter |
| Detectors.FindPhiMatchAll | philter_lite/philter.py:240-241 | a `match_all` pattern contributes the whole-text span |
| Resolution.PhiTypeOf | philter_lite/philter.py:517-520 | the type is the filter's `phi_type` when that is set and non-empty, and `"OTHER"` when it is unset or empty |
| Resolution.MergeSpan | philter_lite/philter.py:526-531 | `add_extend` on a well-formed map is `Extend` and keeps it well formed |
| Resolution.RemoveSpan | philter_lite/philter.py:545-549 | `remove` takes exactly the key `start` out |
| Resolution.StoreOpsImplement | philter_lite/philter.py:522-557 | the walk's operations are the coordinate map's `does_overlap`, `add_extend` and `remove` |
| Resolution.ResolveStops | philter_lite/philter.py:527 | after a `KeyError` on `phi_type_dict[phi_type]`, nothing further changes |
| Resolution.ExcludeNext | philter_lite/philter.py:524-527 | one exclude span: the include map and the log stay; a span touching the include map changes nothing; otherwise the span is merged into the exclude map and, if the type has a PHI map, into it, and the walk raises iff it has none |
| Resolution.IncludeNext | philter_lite/philter.py:529-539 | one include span: never raises, the exclude and PHI maps stay; a span touching the exclude map changes nothing; otherwise it is merged into the include map and logged |
| Resolution.ContextExcludeNext | philter_lite/philter.py:543-546 | one context exclude span: merged into the exclude map, removed from the include map, merged into the PHI map if the type has one, and the walk raises iff it has none; nothing is logged |
| Resolution.ContextIncludeNext | philter_lite/philter.py:547-557 | one context include span: never raises; merged into the include map, removed from the exclude map and logged; the PHI map stays |
| Resolution.ResolveWf | philter_lite/philter.py:522-557 | the walk keeps every map well formed |
| Resolution.ExcludeKeepsInclude | philter_lite/philter.py:524-527 | an exclude filter never changes the include map or the non-PHI log |
| Resolution.ExcludeYieldsToInclude | philter_lite/philter.py:524-527 | exclude spans that all touch the include map change nothing |
| Resolution.ExcludeOk | philter_lite/philter.py:524-527 | an exclude walk raises iff the type has no PHI map and some span misses the include map |
| Resolution.IncludeKeepsExclude | philter_lite/philter.py:529-539 | an include filter never raises and never changes the exclude or PHI maps |
| Resolution.AdmittedSound | philter_lite/philter.py:529-539 | every logged entry is a span that misses the exclude map |
| Resolution.AdmittedComplete | philter_lite/philter.py:529-539 | every span that misses the exclude map is logged |
| Resolution.IncludeLogsAdmitted | philter_lite/philter.py:529-539 | an include walk appends exactly the admitted spans, in order, to the non-PHI log |
| Resolution.ContextExcludeRemoves | philter_lite/philter.py:543-546 | a context exclude walk raises iff spans exist and the type has no PHI map; otherwise every span start leaves the include map; nothing is logged |
| Resolution.ContextIncludeOk | philter_lite/philter.py:547-557 | a context include walk never raises and leaves the PHI map alone |
| Resolution.ContextIncludeLogsAll | philter_lite/philter.py:547-557 | a context include walk logs every span, in order, without an overlap test |
| Resolution.ContextIncludeRemoves | philter_lite/philter.py:547-549 | every span start leaves the exclude map |
| Resolution.ApplyPlainSpan | philter_lite/philter.py:523-539 | one non-context iteration changes the maps and the log as `Step` says |
| Resolution.ApplyContextSpan | philter_lite/philter.py:542-557 | one context iteration changes the maps and the log as `Step` says |
| Resolution.ApplySpan | philter_lite/philter.py:523-557 | one iteration changes the map objects and the log as `Step` says |
| Resolution.Walk | philter_lite/philter.py:522-557 | the loop changes the map objects as `Resolve` over all spans, stopping at a `KeyError` |
| Resolution.GetExcludeIncludeMaps | philter_lite/philter.py:503-557 | the maps and the tracker's non-PHI list end as `Resolve` over `filecoords()` says; the text and PHI list are unchanged |
| Render.TransformTextAsterisk | philter_lite/philter.py:570-590 | the output is `Mask(txt, include_map)` |
| Render.MaskLength | philter_lite/philter.py:570-590 | with forward intervals, the masked text is as long as the input |
| Render.AsteriskKeepsIncluded | philter_lite/philter.py:570-590 | with forward include intervals that nest or lie apart, each output character is the input's when an interval started at or before it covers it, and otherwise `*` for `[a-zA-Z0-9*]` and the character itself for the rest |
| Render.EmptyIntervalDropsChar | philter_lite/philter.py:580-584 | as written, an include interval `{0: 0}` over `"ab"` gives `"*"`: the character at the empty interval's start is lost |
| Render.SafeMaskLength | philter_lite/philter.py:570-590 | the corrected mask, which copies only intervals that end after their start, is as long as the text for every include map |
| Render.SafeMaskAgrees | philter_lite/philter.py:570-590 | over forward intervals the corrected mask equals the mask as written |
| Render.TransformTextI2b2 | philter_lite/philter.py:593-624 | the output is `I2b2(tagdata)` |
| Render.AppendTags | philter_lite/philter.py:604-618 | the tag loop appends the tags of all PHI entries in order |
| Render.SplitTag | philter_lite/philter.py:606-618 | split at `"`, a tag line has its thirteen pieces: the literals and the index, start, stop, word and type |
| Render.TagRoundTrip | philter_lite/philter.py:606-618 | reading a tag line back gives its index, start, stop, word and type, when the word and type hold no `"` or line break |
| Render.TagsReadBack | philter_lite/philter.py:604-618 | reading the tag block back, line by line, gives every PHI entry in order with its index |
| Render.I2b2Frame | philter_lite/philter.py:596-603 | the document is the XML head, the text, the middle, the tag block and the tail |
| Render.HeadSpelled | philter_lite/philter.py:597-599 | the head is `<?xml version="1.0" ?>`, `<Philter>`, then `<TEXT><![CDATA[` |
| Render.MiddleSpelled | philter_lite/philter.py:601-602 | the middle is `]]></TEXT>` then `<TAGS>` |
| Render.TailSpelled | philter_lite/philter.py:621-622 | the tail is `</TAGS>` then `</Philter>` |
| Render.I2b2ReadBack | philter_lite/philter.py:593-624 | reading the part between the prelude and the tail back gives every PHI entry in order |

## Left out

- `map_ner` is not modelled. `find_phi` calls it without its tagger argument, so a `stanford_ner` filter always raises; `PatternHits` models that as the `MissingTagger` failure.
- The part-of-speech tagger (`nltk.pos_tag`) and the regex engine (`finditer`) are function parameters. Nothing is assumed about their output except where a lemma states it (`SpanPointsAtWord`).
- Detectors.MapRegexContext: the map of PHI spans it consults (`full_exclude_map`) is a parameter. As written, `all_patterns[context_filter]` indexes a list with a string, and the `"all"` branch calls `get_complement` on a list. Neither construction is modelled.
- The empty loop over `context_patters` in `find_phi` does nothing and is not modelled.
- `calc_overlap`, `scan` and `keys` in coordinate_map.py are not called by the core and are not modelled.
- I/O is not modelled: `save_to_asterisk`, `save_to_i2b2`, `detect_encoding`, `build_filters`, `build_ner_tagger` and `filter_from_dict` (TOML and the regex databases).
- Text.CleanWord: lower-casing is ASCII only. Python's `str.lower()` also maps a few non-ASCII letters to ASCII ones (for example the Kelvin sign to `k`), which the model does not.
- `hasattr(pattern, "filepath")` is always false for the filter classes, so the non-PHI `filepath` is always the filter's title.
- Resolution.MergeSpan: on a malformed store it returns the store unchanged. Every map object is well formed, so this case never arises from a method.
- Resolution.GetExcludeIncludeMaps requires the include, exclude, coordinate and PHI map objects to be distinct. Aliased maps, as in a call that passes the same object twice, are not modelled.
- `DataTracker` is a value. `GetExcludeIncludeMaps` returns the new tracker instead of appending to the shared list in place.
- Render.AsteriskKeepsIncluded assumes include intervals that are forward (`start < stop`) and that nest or lie apart (an interval starting inside another ends inside it). Nested intervals do arise (`ExtendKeepsInner`); that `add_extend` never creates a partial overlap is not proved here. Forward intervals are not guaranteed by the code: an empty match stores `{k: k}` (see Findings). `TransformTextAsterisk` itself is proved for every map.
- Render.TagRoundTrip holds only for words and types without `"` or a line break: the source escapes nothing.
- Render.TagsReadBack holds only for PHI entries whose words and types have no `"` or line break, for the same reason.
- Render.I2b2ReadBack holds only for PHI entries whose words and types have no `"` or line break, for the same reason. Text containing `]]>` also ends the CDATA section early; the model keeps the text verbatim and proves only the frame.
- Render.TransformTextI2b2 appends each tag as one string, where the source makes thirteen appends. The joined output is the same.
- Python's `re` engine is not modelled. The regex behaviour the core relies on (`\s`, `[a-zA-Z0-9]`, `[^a-zA-Z0-9*]`) is written out as character classes in `Text`.

## Findings

| source | as written | input that shows it | evidently intended | confidence | as-written member | corrected member |
|---|---|---|---|---|---|---|
| philter_lite/philter.py:580-584 | an include interval `{k: stop}` with `stop <= k` copies `txt[k:stop]`, which is empty, and sets `last_marker = stop`, so index `k` is neither copied nor masked | `transform_text_asterisk("ab", {0: 0})`; a regex that can match the empty string (`map_regex` keeps zero-width matches, line 275) stores such an interval | the output has the text's length: index `k` is masked like any uncovered character | medium, not executed | Render.EmptyIntervalDropsChar | Render.SafeMaskLength |
