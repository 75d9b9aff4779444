# Counterfactual Application, modelled in Dafny

This project models the core of the Counterfactual Application, a desktop
tool that explains a text-to-text language model's prediction for an
airline incident report. It makes perturbed inputs by swapping each word of
the report for its WordNet synonyms or antonyms. It records the model's
output for each perturbed input and writes a report that counts how many
outputs still match the original. Beside the engine, the project models the
small state machines and registries of the bundled UI engine. These are the
UI element and button, the global tag and colour registries, the camera,
the tile-map layer list, the text input stream, and the pure helpers in
`basic.py`.

The files are:

- `counterfactual.dfy` (module `Counterfactual`): the engine. It covers the tokenizer, the synonym and antonym lookups, the search loop that builds the `word -> [(substitute, output)]` dict, and the counting and report part of `get_output`. WordNet is a function from a word to its synsets, and the language model is a function from an input to its output.
- `py_strings.dfy` (module `PyStrings`): the Python `str` behaviour the engine relies on. It covers `split`/`join` on one character, `replace` of every occurrence, ASCII `lower`/`upper`, and the decimal rendering of counts.
- `basic.dfy` (module `Basic`): `is_only_type`, `get_first_item_of_incorrect_type`, `is_point_in_rect` and `get_filename`. It also holds a small universe of Python values for `isinstance`, plus `Option` and `Result`.
- `glob.dfy` (module `Glob`): the colour and tag registries, as a `Registry` class whose maps are updated in place.
- `ui_element.dfy` (module `UIElements`): a `UIElement` class (alignment, tags, position, bounds, visibility and `Text.update_text`) and a `Button` class (current state, toggle flag and the display flags of its elements).
- `camera.dfy` (module `Cameras`): `Camera`, with its position, its scale clamped to at least 1, and two dirty flags.
- `game_map.dfy` (module `GameMaps`): `Map` and its list of layers.
- `input_stream.dfy` (module `InputStreams`): `InputStream`, the one-line editor that types pressed keys into a text element.

Loops that update variables in the source are `while` loops in the model,
with three exceptions: the three-element loop of `Button.__init__` is
unrolled, and the `all(...)` of `basic.py` and the `any(...)` of
`UIElement.is_displayed` are recursive predicates. Each loop is proved against a
recursive function that specifies it, and the lemmas next to that function
state what the source promises. Examples: `GetSynonyms` and `SynonymSet`,
`AppendSection` and `SectionLines`/`RecordCount`/`SectionMatches`, and
`CounterfactualOutputs` and `SearchSpec`. Raised exceptions are modelled as
the `Failure` case of a `Result`, and `KeyError` as `None`.

Behaviours of the code worth noting:

- `str.replace` replaces every occurrence of the word, including inside longer words, not only the first.
- Progress is `int(k / n * 100)`, which truncates; it is not rounded. The model computes it on exact numbers (see "## Left out").
- Tokens of length 3 or less are skipped (`len(word) > 3`). Empty tokens occur and are kept as keys.
- A repeated token resets its list to `[]` and is searched again. The dict keeps the key's first position and the last list.
- The report writes a `Replaced with` line only for matching records. The summary comes after the two sections. The report has no filtered views.
- When no record exists, the percentage division raises `ZeroDivisionError`; nothing guards it.
- An unknown mode raises only when the first eligible word is reached. If no word is eligible, the run succeeds.

## Model

| member | source | states |
|---|---|---|
| Counterfactual.CleanString | Counterfactual_Application/custom/scripts/counterfactual_generator.py:14-15 | the cleaned string is no longer than the input and holds only `A-Z`, `a-z` and space |
| Counterfactual.CleanConcat | Counterfactual_Application/custom/scripts/counterfactual_generator.py:14-15 | cleaning a concatenation is the concatenation of the cleaned parts (characters are dropped one by one, in order) |
| Counterfactual.CleanUnchangedIff | Counterfactual_Application/custom/scripts/counterfactual_generator.py:14-15 | cleaning leaves a string unchanged exactly when it holds only letters and spaces |
| Counterfactual.CleanIdempotent | Counterfactual_Application/custom/scripts/counterfactual_generator.py:14-15 | cleaning twice is the same as cleaning once |
| Counterfactual.TokenizerShape | Counterfactual_Application/custom/scripts/counterfactual_generator.py:17-18 | tokenizing gives one more token than the cleaned string has spaces; no token holds a space; every token is letters only; joining the tokens with `" "` gives back the cleaned string |
| Counterfactual.SynonymSetMembers | Counterfactual_Application/custom/scripts/counterfactual_generator.py:20-29 | a string is a synonym exactly when it is the underscore-to-space name of some lemma of some synset and differs from the word when both are lower-cased |
| Counterfactual.LemmaSynonymsMembers | Counterfactual_Application/custom/scripts/counterfactual_generator.py:24-27 | the inner loop over one synset's lemmas adds exactly the spaced lemma names that differ from the word ignoring case |
| Counterfactual.AntonymSetMembers | Counterfactual_Application/custom/scripts/counterfactual_generator.py:31-40 | a string is an antonym exactly when it is the spaced name of some antonym of some lemma of some synset; there is no filter against the word |
| Counterfactual.LemmaAntonymsMembers | Counterfactual_Application/custom/scripts/counterfactual_generator.py:35-38 | the loops over one synset's lemmas add exactly the spaced names of their antonyms |
| Counterfactual.SpacedNamesMembers | Counterfactual_Application/custom/scripts/counterfactual_generator.py:37-38 | the innermost loop adds exactly the spaced names of one lemma's antonyms |
| Counterfactual.CandidatesAreSpacedAndNotSelf | Counterfactual_Application/custom/scripts/counterfactual_generator.py:20-40 | no candidate holds an underscore, and no synonym equals the word ignoring case |
| Counterfactual.GetSynonyms | Counterfactual_Application/custom/scripts/counterfactual_generator.py:20-29 | the nested loops build exactly `SynonymSet` of the word's synsets; WordNet is asked about the word once |
| Counterfactual.GetAntonyms | Counterfactual_Application/custom/scripts/counterfactual_generator.py:31-40 | the three nested loops build exactly `AntonymSet` of the word's synsets; WordNet is asked about the word once |
| Counterfactual.DistinctSubstitutesCount | Counterfactual_Application/custom/scripts/counterfactual_generator.py:67-74 | records with pairwise different substitutes have as many substitutes as records |
| Counterfactual.CounterfactualCount | Counterfactual_Application/custom/scripts/counterfactual_generator.py:67-74 | a word's list has one record per single-word candidate, so it is never longer than the candidate set, and no record's substitute holds a space |
| Counterfactual.SubstituteCandidates | Counterfactual_Application/custom/scripts/counterfactual_generator.py:67-74 | visiting the candidates in any order yields one record `(c, llm(input.replace(word, c)))` per candidate without a space, with no substitute twice; the model calls it makes are exactly `(word, c)` for those records, in order |
| Counterfactual.AddCandidate | Counterfactual_Application/custom/scripts/counterfactual_generator.py:67-74 | one more candidate adds its record exactly when it has no space, and keeps the records those of the visited candidates |
| Counterfactual.FirstOccurrencesShape | Counterfactual_Application/custom/scripts/counterfactual_generator.py:55-56 | the dict's keys, in insertion order, are exactly the tokens, each once |
| Counterfactual.EligibleWords | Counterfactual_Application/custom/scripts/counterfactual_generator.py:55-63 | WordNet is asked only about tokens longer than three characters; the lookups are the ones `GetSynonyms`/`GetAntonyms` report, concatenated over the run |
| Counterfactual.SearchWord | Counterfactual_Application/custom/scripts/counterfactual_generator.py:58-74 | the loop body raises exactly for an eligible token under an unknown mode; a short token keeps `[]`; an eligible one gets the counterfactuals of its candidates. WordNet is asked about the token exactly when it is eligible and the mode is known; the model calls are those `SubstituteCandidates` makes |
| Counterfactual.RecordWord | Counterfactual_Application/custom/scripts/counterfactual_generator.py:55-77 | one pass (reset the key, search the token, report progress) fails exactly when `SearchWord` does and otherwise extends the loop invariant by one token |
| Counterfactual.SearchStep | Counterfactual_Application/custom/scripts/counterfactual_generator.py:55-77 | the loop invariant `SearchedPrefix` is kept by one pass of the loop body |
| Counterfactual.SearchComplete | Counterfactual_Application/custom/scripts/counterfactual_generator.py:55-88 | after the last token the state is what `SearchSpec` promises, and an unknown mode that did not raise met no eligible token |
| Counterfactual.CounterfactualOutputs | Counterfactual_Application/custom/scripts/counterfactual_generator.py:43-88 | the run fails exactly under an unknown mode with some eligible token. On success: every token is a key; short tokens map to `[]`; eligible ones map to their counterfactuals; the model is called only for eligible tokens and single-word candidates; progress after each token is the truncated percentage |
| Counterfactual.ProgressFacts | Counterfactual_Application/custom/scripts/counterfactual_generator.py:76-77 | the reported percentage never decreases, never exceeds 100, and is 100 after the last token |
| Counterfactual.PercentageWhole | Counterfactual_Application/custom/scripts/counterfactual_generator.py:76-77 | all `n` of `n` tokens done is exactly 100 percent after truncation |
| Counterfactual.PercentageMonotone | Counterfactual_Application/custom/scripts/counterfactual_generator.py:76-77 | more tokens done never gives a smaller percentage |
| Counterfactual.RecordLinesFacts | Counterfactual_Application/custom/scripts/counterfactual_generator.py:121-125 | a word's written lines are `Replaced` lines, one per matching record, each showing the original output and coming from one of its records |
| Counterfactual.SectionReplacedCount | Counterfactual_Application/custom/scripts/counterfactual_generator.py:118-125 | a section holds as many `Replaced` lines as the dict has matching records |
| Counterfactual.SectionHeaders | Counterfactual_Application/custom/scripts/counterfactual_generator.py:118-120 | a word gets a header exactly when it is a key with a non-empty list |
| Counterfactual.SectionReplacedLines | Counterfactual_Application/custom/scripts/counterfactual_generator.py:121-125 | every `Replaced` line shows the original output and comes from a record under some key |
| Counterfactual.CountBounds | Counterfactual_Application/custom/scripts/counterfactual_generator.py:113-136 | the matching count of a dict never exceeds its record count |
| Counterfactual.NoRecordsIff | Counterfactual_Application/custom/scripts/counterfactual_generator.py:118-136 | a dict adds no record exactly when every key's list is empty |
| Counterfactual.AppendRecords | Counterfactual_Application/custom/scripts/counterfactual_generator.py:121-125 | the inner loop counts every record, counts and writes exactly the matching ones |
| Counterfactual.AppendSection | Counterfactual_Application/custom/scripts/counterfactual_generator.py:118-125 | the nested loops over a dict append its section text and add its record and match counts |
| Counterfactual.SectionStep | Counterfactual_Application/custom/scripts/counterfactual_generator.py:118-125 | one more key adds its header (for a non-empty list), its matching lines, its records and its matches |
| Counterfactual.SectionTextStep | Counterfactual_Application/custom/scripts/counterfactual_generator.py:118-125 | the text written for one more key is its header line, when its list is non-empty, then its matching records |
| Counterfactual.RecordLinesStep | Counterfactual_Application/custom/scripts/counterfactual_generator.py:121-125 | one more record adds a line and a match exactly when its output equals the original |
| Counterfactual.PercentagesAddUp | Counterfactual_Application/custom/scripts/counterfactual_generator.py:141-143 | the matching and non-matching percentages lie in 0..100 and add up to 100 |
| Counterfactual.ReportFor | Counterfactual_Application/custom/scripts/counterfactual_generator.py:113-144 | the report fails (division by zero) exactly when both dicts hold no record; otherwise its counters are the total records and total matches, with matches at most records |
| Counterfactual.RecordCountIsCandidateTotal | Counterfactual_Application/custom/scripts/counterfactual_generator.py:113-136 | `num_of_items` from a finished run is the number of single-word candidates over its distinct eligible tokens |
| Counterfactual.SearchRecordCount | Counterfactual_Application/custom/scripts/counterfactual_generator.py:55-74 | a finished run holds one record per single-word candidate of each eligible token, and none when no token is longer than three characters |
| Counterfactual.WriteSections | Counterfactual_Application/custom/scripts/counterfactual_generator.py:97-137 | the header and both sections are written, and the counters are the records and matches of both dicts |
| Counterfactual.Summarise | Counterfactual_Application/custom/scripts/counterfactual_generator.py:113-144 | the report part of `get_output` computes exactly `ReportFor`: the division error when nothing was recorded, otherwise the text with its summary and the two counters |
| Counterfactual.GetOutput | Counterfactual_Application/custom/scripts/counterfactual_generator.py:91-144 | both runs meet `SearchSpec`, the report is `ReportFor` of them, and an input without a token longer than three characters always ends in the division error |
| PyStrings.SplitCount | Counterfactual_Application/custom/scripts/counterfactual_generator.py:17-18 | `split` gives one more piece than there are separators |
| PyStrings.SplitPieces | Counterfactual_Application/custom/scripts/counterfactual_generator.py:17-18 | no piece holds the separator, and every character of a piece is one of the string |
| PyStrings.JoinSplit | Counterfactual_Application/custom/scripts/counterfactual_generator.py:17-18 | joining the pieces of `split` with the separator gives back the string |
| PyStrings.SplitJoin | Counterfactual_Application/custom/scripts/counterfactual_generator.py:17-18 | splitting a join of separator-free pieces gives back the pieces |
| PyStrings.SplitFirst | Counterfactual_Application/scripts/utility/basic.py:88 | the first piece is the text before the first separator, or the whole string |
| PyStrings.SplitLast | Counterfactual_Application/scripts/utility/basic.py:80-81 | with a separator present, the last piece is the text after the last separator; otherwise the string is the only piece |
| PyStrings.ReplaceAbsent | Counterfactual_Application/custom/scripts/counterfactual_generator.py:70 | `replace` leaves a text without the pattern unchanged |
| PyStrings.ReplaceSelf | Counterfactual_Application/custom/scripts/counterfactual_generator.py:70 | replacing a word by itself changes nothing |
| PyStrings.ReplaceSameLength | Counterfactual_Application/custom/scripts/counterfactual_generator.py:70 | a substitute as long as the word keeps the input's length |
| PyStrings.ReplaceCharRemoves | Counterfactual_Application/custom/scripts/counterfactual_generator.py:25 | `replace("_", " ")` leaves no underscore |
| PyStrings.ReplaceInsideLongerWord | Counterfactual_Application/custom/scripts/counterfactual_generator.py:70 | `replace` also rewrites the word inside a longer word: `"cat cats"` becomes `"dog dogs"` |
| PyStrings.NatToString | Counterfactual_Application/custom/scripts/counterfactual_generator.py:139-142 | a count renders as a non-empty string of decimal digits |
| PyStrings.ParseNatToString | Counterfactual_Application/custom/scripts/counterfactual_generator.py:139-142 | reading the rendered count back gives the count |
| Basic.IsOnlyType | Counterfactual_Application/scripts/utility/basic.py:19-31 | true exactly when every item is an instance of the type, vacuously on an empty list |
| Basic.FirstItemOfIncorrectType | Counterfactual_Application/scripts/utility/basic.py:34-47 | the earliest item that is not an instance of the type, or no item when every item is one; the Python return value is `PyValue` of this, so "no item" and a `None` item both come back as `None` |
| Basic.FirstItemAgreesWithOnlyType | Counterfactual_Application/scripts/utility/basic.py:19-47 | the search finds no item exactly when the list has only the type (the Python return value alone does not tell, see `PyFirstItemIsNone`) |
| Basic.PyFirstItemIsNone | Counterfactual_Application/scripts/utility/basic.py:34-47 | the function returns Python's `None` exactly when the list has only the type or its earliest item without the type is `None` itself |
| Basic.NoneItemLooksLikeNoItem | Counterfactual_Application/scripts/utility/basic.py:34-47 | the colour `(1, None, 3)` checked against `int` gives `None`, though it is not all ints |
| Basic.PointInRectEdges | Counterfactual_Application/scripts/utility/basic.py:50-66 | the test is inclusive on all four edges, and a point one step past an edge is outside |
| Basic.GetFilename | Counterfactual_Application/scripts/utility/basic.py:68-90 | the file name never holds a `/` (the `//` branch cannot be reached) |
| Basic.FilenameIsLastComponent | Counterfactual_Application/scripts/utility/basic.py:80-90 | with the extension kept, the result is the text after the last `/`, or the whole path when there is none |
| Basic.FilenameStemIsBeforeFirstDot | Counterfactual_Application/scripts/utility/basic.py:87-88 | without the extension, the result is the file name up to its first `.` |
| Basic.FilenameExample | Counterfactual_Application/scripts/utility/basic.py:87-88 | `a.tar.gz` without its extension is `a` |
| Glob.Registry.constructor | Counterfactual_Application/scripts/utility/glob.py:21-48 | after `init` the colour and tag registries are empty, there is no audio and the scale is 1.0 |
| Glob.Registry.Init | Counterfactual_Application/scripts/utility/glob.py:21-48 | re-running `init` resets the same state |
| Glob.Registry.AddColour | Counterfactual_Application/scripts/utility/glob.py:75-107 | only a 3-tuple of ints is stored (overwriting its name); anything else leaves the registry unchanged, and a non-iterable value raises on the rejection path |
| Glob.Registry.GetColour | Counterfactual_Application/scripts/utility/glob.py:110-124 | a known name gives its stored colour, and an unknown one gives nothing, never another entry |
| Glob.Registry.AddTag | Counterfactual_Application/scripts/utility/glob.py:252-272 | a tag with a `str` id is stored under that id, replacing an earlier one; other ids and other registries are untouched; a non-`str` id is rejected |
| Glob.Registry.GetTag | Counterfactual_Application/scripts/utility/glob.py:275-298 | `get_tag` answers exactly for the ids `is_tag` accepts, with the tag stored under that id |
| Glob.AddTagLastWriteWins | Counterfactual_Application/scripts/utility/glob.py:252-272 | after adding two tags with the same id, `is_tag` holds and `get_tag` gives the second; other ids are untouched |
| UIElements.AlignedWith | Counterfactual_Application/scripts/ui/ui_element.py:129-132 | the alignment keeps exactly its keys |
| UIElements.AlignFacts | Counterfactual_Application/scripts/ui/ui_element.py:129-132 | only keys already present change, each to its `bool` argument; other keys keep their value; applying the same arguments again changes nothing |
| UIElements.RoundHalf | Counterfactual_Application/scripts/ui/ui_element.py:202 | `round(n / 2)` is within a half of `n / 2` and rounds an exact half to the even neighbour |
| UIElements.AxisPosFacts | Counterfactual_Application/scripts/ui/ui_element.py:200-225 | aligning to both opposite sides is aligning to neither; one side moves by half the surface; a centred element without offset sits on the surface's middle |
| UIElements.OverlapsSurfaceIff | Counterfactual_Application/scripts/ui/ui_element.py:186-189 | the bounds flag holds exactly when some point lies in both the element's box and the surface, edges included |
| UIElements.AnyTagDisplayedTrue | Counterfactual_Application/scripts/ui/ui_element.py:168-170 | the lazy `any` over tags answers true exactly when some tag is displayed and all tags before it are registered |
| UIElements.AnyTagDisplayedNone | Counterfactual_Application/scripts/ui/ui_element.py:168-170 | the lazy `any` raises `KeyError` exactly when it reaches an unregistered tag after registered hidden ones |
| UIElements.AnyTagDisplayedRegistered | Counterfactual_Application/scripts/ui/ui_element.py:168-170 | with every tag registered, the lazy `any` answers whether some tag is displayed |
| UIElements.UIElement.constructor | Counterfactual_Application/scripts/ui/ui_element.py:41-80 | a new element has the default alignment updated by its arguments, position `[0, 0]`, no surface, the bounds flag set, and its tags registered |
| UIElements.UIElement.SetAlign | Counterfactual_Application/scripts/ui/ui_element.py:120-132 | the loop over the arguments leaves exactly `AlignedWith` of them |
| UIElements.UIElement.SetTags | Counterfactual_Application/scripts/ui/ui_element.py:103-116 | every id is appended; unknown ids are registered with a default tag; known ids keep their tag |
| UIElements.UIElement.SetDisplay | Counterfactual_Application/scripts/ui/ui_element.py:86-92 | the display flag takes the given value |
| UIElements.UIElement.SetInSurfBounds | Counterfactual_Application/scripts/ui/ui_element.py:178-189 | the bounds flag is the inclusive overlap of the element's box with the surface |
| UIElements.UIElement.SetPos | Counterfactual_Application/scripts/ui/ui_element.py:192-227 | for an integer scale, both coordinates are placed by `AxisPos` and the bounds flag is recomputed from the new position |
| UIElements.UIElement.Intersects | Counterfactual_Application/scripts/ui/ui_element.py:230-242 | the hit test is the inclusive point-in-rectangle test on the position and the dimensions |
| UIElements.UIElement.IsDisplayed | Counterfactual_Application/scripts/ui/ui_element.py:161-175 | displayed exactly when shown, opaque, with a surface, in bounds, and (with tags) some tag displayed; a raised `KeyError` exactly when the tag check reaches an unregistered tag |
| UIElements.UIElement.UpdateText | Counterfactual_Application/scripts/ui/ui_element.py:360-382 | a field changes only for a given, different argument, and the text is re-rendered exactly when some field changed |
| UIElements.ParseState | Counterfactual_Application/scripts/ui/ui_element.py:626-637 | a state name maps to the state with that name, and any other name is a key error |
| UIElements.TargetStateFacts | Counterfactual_Application/scripts/ui/ui_element.py:677-714 | a toggling hit never asks for UNPRESS; a miss always asks for a state and never for HOVER; a non-toggling pressed hit asks for PRESS |
| UIElements.Button.constructor | Counterfactual_Application/scripts/ui/ui_element.py:550-578 | the current state is UNPRESS, its element shows the display flag, every other element is hidden, and the toggle flag is the default; of the three elements only the display flag may change |
| UIElements.Button.SetDisplay | Counterfactual_Application/scripts/ui/ui_element.py:582-590 | the flag and the current element's display take the value; nothing else changes |
| UIElements.Button.SetState | Counterfactual_Application/scripts/ui/ui_element.py:626-646 | no change for the current state or a state without an element; otherwise the state moves, the toggle flag follows it, the old element is hidden and the new one takes the button's display flag |
| UIElements.Button.SetCurrentState | Counterfactual_Application/scripts/ui/ui_element.py:626-646 | an unknown name changes nothing; a known one behaves as `SetState`: the button's own flag stays, a state that does not move changes nothing, a move sets the state and toggle flag and hides the old state's element, and no other element changes |
| UIElements.Button.Toggle | Counterfactual_Application/scripts/ui/ui_element.py:717-731 | the toggle flag flips; off means UNPRESS; with a PRESS element, PRESS exactly when the flag is on |
| UIElements.Button.Intersects | Counterfactual_Application/scripts/ui/ui_element.py:677-714 | the button is hit exactly when it is displayed, some element is displayed and the UNPRESS element contains the point; the state then moves as `TargetState` asks |
| Cameras.ClampedScaleFacts | Counterfactual_Application/scripts/game/Camera.py:50-59 | a changed scale is at least 1; a scale of at least 1 stays so; setting the same value twice is setting it once |
| Cameras.MovedUndo | Counterfactual_Application/scripts/game/Camera.py:32-36 | moving by the opposite velocity over the same frame time returns to the start |
| Cameras.MovedCompose | Counterfactual_Application/scripts/game/Camera.py:32-36 | two moves over one frame time add their velocities |
| Cameras.Camera.constructor | Counterfactual_Application/scripts/game/Camera.py:22-29 | the position is a list copy of the argument, the scale is not clamped, and both flags are down |
| Cameras.Camera.MovePos | Counterfactual_Application/scripts/game/Camera.py:32-36 | a zero velocity changes nothing; any other moves both coordinates by velocity times frame time and raises the flag |
| Cameras.Camera.SetPos | Counterfactual_Application/scripts/game/Camera.py:39-42 | the position is replaced and the flag raised (a tuple never equals the stored list) |
| Cameras.Camera.SetScale | Counterfactual_Application/scripts/game/Camera.py:50-59 | a new value is clamped to at least 1 and raises the flag; the current value changes nothing |
| Cameras.Camera.AdjustScale | Counterfactual_Application/scripts/game/Camera.py:45-47 | goes through `set_scale`, so a scale of at least 1 stays so and the flag rises exactly when the new scale differs from the old |
| GameMaps.Without | Counterfactual_Application/scripts/game/Map.py:56 | `del` removes exactly the element at the index and keeps the others in order |
| GameMaps.WithoutInsert | Counterfactual_Application/scripts/game/Map.py:50-56 | removing the element just inserted at an index gives the list back |
| GameMaps.Map.constructor | Counterfactual_Application/scripts/game/Map.py:23-38 | no layers, and the surface measures the tile counts times the tile size |
| GameMaps.Map.AddMapLayer | Counterfactual_Application/scripts/game/Map.py:41-47 | a layer of the map's dimensions is appended and earlier layers are unchanged |
| GameMaps.Map.RemoveMapLayer | Counterfactual_Application/scripts/game/Map.py:50-56 | a valid index removes exactly that layer; any other index changes nothing |
| GameMaps.Map.GetMapLayer | Counterfactual_Application/scripts/game/Map.py:76-83 | the layer at a valid index, and nothing otherwise |
| GameMaps.Map.GetMapLayerListLen | Counterfactual_Application/scripts/game/Map.py:85-86 | the number of layers |
| InputStreams.ApplyEdit | Counterfactual_Application/scripts/ui/input_stream.py:83-90 | typing extends the text by the key's characters and keeps the old text as a prefix; backspace drops the last character (an empty text stays empty) |
| InputStreams.BackspaceUndoesChar | Counterfactual_Application/scripts/ui/input_stream.py:83-86 | backspace after typing one character gives the text back |
| InputStreams.SpecialCharsFacts | Counterfactual_Application/scripts/ui/input_stream.py:20-41 | every shifted key is one character and types one character different from itself |
| InputStreams.KeyEditFacts | Counterfactual_Application/scripts/ui/input_stream.py:83-103 | space, return and tab type one character whatever the modifiers; a lower-case letter types its capital under shift or caps lock and itself otherwise |
| InputStreams.NewKeys | Counterfactual_Application/scripts/ui/input_stream.py:76 | the new keys are exactly those pressed now and not in the previous frame |
| InputStreams.InputStream.constructor | Counterfactual_Application/scripts/ui/input_stream.py:47-50 | the stream is off and has no element |
| InputStreams.InputStream.SetInputStream | Counterfactual_Application/scripts/ui/input_stream.py:53-64 | a text element starts the stream on itself; anything else changes nothing |
| InputStreams.InputStream.EndInputStream | Counterfactual_Application/scripts/ui/input_stream.py:67-70 | the stream is off and has no element |
| InputStreams.InputStream.ModifyText | Counterfactual_Application/scripts/ui/input_stream.py:73-105 | nothing happens without a change, an active stream and a new key. Otherwise the processed key is a new key; escape ends the stream without touching the text; any other key's edit is applied through `update_text`. Of the element only the fields `update_text` writes may change; its font and colour stay, and it needs a new surface exactly when it had one pending or its text changed |

## Left out

- WordNet and the language model are not modelled. WordNet is a function from a word to its synsets, and the model is a function from an input text to its output.
- The second, "analysis" model call at the end of `get_output` is not modelled. Its answer is only printed.
- Printing and the file save (`FileHandler`) are I/O. The report is the string the file would hold.
- The progress redraws (`update_text` on the loading bar, `window.events()`, `window.draw()`) are not modelled. The percentages they show are kept in `Search.progress`.
- Counterfactual.Percentage / Progress / RecordWord / SearchComplete / CounterfactualOutputs / GetOutput: progress is `(k * 100) / n` on exact integers, while the source computes `int(k / n * 100)` in floating point. The two differ where the float product falls just below a whole number: for 29 of 100 tokens the source reports 28 (0.29 * 100 is 28.999999999999996), the model 29.
- Cameras.Camera.MovePos / Cameras.Camera.AdjustScale / Cameras.MovedUndo / Cameras.MovedCompose: positions, velocities, frame times and scales are exact reals, not floats. Float rounding and absorption are not modelled, so the undo and composition lemmas hold for the model only, and a tiny change that a float sum would absorb still counts as a change.
- The percentage division and its `:.2f` formatting are floating point. The rendering is the `Percent` parameter, and `MatchPercentage` is the exact real value it renders.
- `Lower`/`Upper` cover only ASCII letters. Python's Unicode case mapping is not modelled, and the cleaned tokens hold ASCII letters only.
- The iteration order of a Python `set` is not modelled. The candidates of a word are visited in an unspecified order, and `ModifyText` takes an unspecified new key.
- UIElements.UIElement.SetPos: models an integer `glob.scale`. The float scale and Python's rounding of a float product are not modelled.
- Surfaces, images and fonts are not modelled. An element records whether it has a surface and counts its re-renders. Re-rendering in `_create_surf` also changes the element's dimensions and position; the model leaves them unchanged.
- The glob image and font registries, `set_font_scale`, `update_delta_time` and the audio object are not modelled. They hold pygame objects or read the clock; `hasAudio` stands for `audio`.
- `Button.set_state_ui_elem`, the button sounds (`__play_state_audio`), and `Button.set_surf`/`set_pos`/`draw` are not modelled. They replace elements at run time, play audio, or draw.
- `Map.set_map_layer` is not modelled. It reads `Logger.__OVERWRITTEN`, which Python name-mangles to an attribute that `Logger` does not seem to have.
- `Map.set_map_surf` and `Map.draw_map_layers` (blitting) are not modelled, and neither are the tiles of a `MapLayer`.
- `Logger` is not part of this model. Its checks are taken to return true exactly when the check fails, and its index check to accept exactly `0 <= i < len`.
- The pygame key codes and modifier state are not modelled. `ModifyText` takes them as the `keyCode` function and the `shift`/`caps` flags.
- Cameras.Camera.SetPos: takes a tuple, as the signature asks. A list argument equal to the stored position, which the source would ignore, is not modelled.
- `glob.delta_time` is not modelled; it is a parameter of `MovePos` and `AdjustScale`.
- `load_json_file` is file I/O and is not modelled.
