# Activity tracker core, modelled in Dafny

The activity tracker logs keystrokes and clicks per application. It reconstructs the typed
text and groups it into timestamped blocks per application. A language model refines those
blocks. From the refined text it builds a tree of activities: layer-1 applications, layer-2
concepts, broader concepts on each layer above, and a `day_activity` root. Every parent sits
on a higher layer than its child. Apart from the root, the only nodes without a parent are
applications whose concept list came back empty. A small character-level language-model
experiment sits beside it.

This project models the sequential core of that system as pure Dafny functions and proves
properties of them.

| module | file | what it models |
|---|---|---|
| `Wrappers` | wrappers.dfy | `Option` and `Result` |
| `Strings` | strings.dfy | Python `strip`, `lower`, `replace`, `split`, `join`, `str(n)` and dict key order, on ASCII |
| `LlmUtils` | llm_utils.py | `parse_json_response` fence stripping and dispatch, `parse_list_response_fallback`, `parse_mapping_response` |
| `Segmenter` | activity_network.py | the pairing loop of `parse_refined_text`, `identify_layer1_activities` |
| `ConceptOracle` | activity_network.py | the post-processing and fallbacks of the three language-model adapters, and the concept-to-category mapping step |
| `ActivityTree` | activity_network.py | `build_activity_tree` (node dict, layers 1 and 2, aggregation loop, root) and `tree_to_dict` |
| `Keystrokes` | keystroke_utils.py | `reconstruct_text`, `group_keystrokes_by_app`, `format_keystroke_groups` |
| `Tracker` | tracker.py | one iteration of the `save_activity` loop (lines 69-118) |
| `CharModel` | ml_experiments/model.py, ml_experiments/script.py | `CharTokenizer` and `TextDataset` |

The language model is a datatype of functions, `ConceptOracle.Oracle`. For each kind of
request it maps the request's inputs to the reply text, or to `None` when the call raised.
The JSON decoder is a function of the same kind, returning `None` on a decoding error. A
Python `dict` is modelled as its keys in insertion order plus a `map`.

## Model

| member | source | states |
|---|---|---|
| Segmenter.ParseBlock | activity_network.py:75-104 | An entry has the stripped, non-empty timestamp, a non-empty activity that is one stripped line, and non-empty content. A blank timestamp or a blank block gives no entry. |
| Segmenter.Pair | activity_network.py:74-106 | Pairing yields at most half as many entries as there are sections. |
| Segmenter.FirstNonBlank | activity_network.py:83-90 | A block has no non-blank line exactly when every line is blank; otherwise its first non-blank line, stripped, leads the non-blank lines, and every line before it is blank. |
| Segmenter.ParseBlockLines | activity_network.py:75-104 | A pair gives an entry exactly when the timestamp and some line of the block are non-blank. The activity is the first non-blank line, stripped. The content is the later non-blank lines, stripped and joined by line breaks, or the activity again when there are none. |
| Segmenter.PairedEntries | activity_network.py:74-106 | Every entry the pairing loop emits has a non-empty timestamp, activity and content. |
| Segmenter.PairSections | activity_network.py:72-106 | The loop starts at index 1 only after a blank preamble. It yields at most half as many entries as sections, each well formed. |
| Segmenter.BlankPairSkipped | activity_network.py:78-80 | A pair with a blank timestamp or a blank block yields nothing, and pairing resumes two sections on. |
| Segmenter.OneLineBlock | activity_network.py:90-96 | A block of a single line uses that line as both activity and content. |
| Segmenter.PreambleMisaligns | activity_network.py:72 | A non-blank preamble is read as a timestamp, so the real timestamp becomes the activity name. |
| Segmenter.SegmentRoundTrip | activity_network.py:72-106 | Pairing the timestamp/block layout of well-formed entries gives back exactly those entries. |
| Segmenter.FirstWithKeyIsFirst | activity_network.py:121-124 | No entry before the first one with a given name has that name. |
| Segmenter.GroupIndex | activity_network.py:124 | Finds the group of a name, or reports that none has it. |
| Segmenter.AddEntryKeepsGrouping | activity_network.py:121-124 | One step of the grouping loop keeps the entries seen so far partitioned by name, in first-appearance order. |
| Segmenter.GroupActivitiesPartitions | activity_network.py:119-126 | The group names are distinct and non-blank. Each group holds exactly the entries with its stripped name, in input order. Every named entry is in a group. Groups appear in the order their names first appear. |
| ConceptOracle.ExtractConcepts | activity_network.py:157-187 | At most 4 lower-case concepts. A failed call gives exactly the lower-cased activity name. A reply that is not a JSON array is read by the salvage parser. |
| ConceptOracle.ShowItemsOfStrings | activity_network.py:176 | A JSON array of trimmed lower-case strings is read back as those strings. |
| ConceptOracle.Target | activity_network.py:204 | The target count is at least 1, and for two or more inputs it is half the input, rounded down, so strictly fewer. |
| ConceptOracle.AggregateActivities | activity_network.py:200-246 | Up to one input comes back unchanged. A failed call gives the first target-many inputs. A JSON array reply is used whole, not cut to the target. A salvaged reply is cut to the target. |
| ConceptOracle.AggregateArrayWhole | activity_network.py:233-235 | A reply that decodes to a JSON array of trimmed lower-case strings is returned whole, however many strings it holds. |
| ConceptOracle.AggregateShrinksUnlessArray | activity_network.py:200-246 | For two or more inputs, only a JSON array reply can fail to shrink the list. |
| ConceptOracle.GenerateDayActivity | activity_network.py:259-284 | A single concept is returned unchanged. A failed call joins the concepts with ` / `. A reply is lower-cased and has no quote at either end. |
| ConceptOracle.GenerateDayActivityClean | activity_network.py:279 | A reply that is already trimmed, lower case and unquoted is the day's activity as it is. |
| ConceptOracle.ChildrenMembers | activity_network.py:425-437 | An id is among a broader concept's children exactly when it is the id of a concept assigned to that broader concept. |
| ConceptOracle.RoundRobin | activity_network.py:435-437 | One category per concept. The first m concepts take the m broader concepts in order, and concepts whose positions agree modulo m get the same category. |
| ConceptOracle.RoundRobinCovers | activity_network.py:435-437 | The round robin uses only broader concepts, and with at least as many concepts as broader ones it uses every broader concept. |
| ConceptOracle.Pick | activity_network.py:426-431 | The looked-up category is kept when it is one of the broader concepts; otherwise the round-robin choice is used. The result is always a broader concept. |
| ConceptOracle.AssignCategories | activity_network.py:408-437 | The mapping step raises exactly when there are concepts to map and no broader concept. Otherwise it gives one category per concept. |
| ConceptOracle.AssignCategoriesLabels | activity_network.py:425-437 | Every category is one of the broader concepts. A failed call, or a reply that is not a JSON object, assigns round robin. With a JSON object, each concept takes the value under its lower-cased name when that is a broader concept, and its round-robin choice otherwise. |
| ConceptOracle.ChildrenPartition | activity_network.py:425-443 | When every label is one of the distinct keys, the keys' children hold every id exactly as often as it occurs. |
| ConceptOracle.AssignmentPartitions | activity_network.py:425-443 | Each current concept id is appended to exactly one broader concept's children. |
| ActivityTree.Put | activity_network.py:345-347 | Storing a node under a new key appends that key to the dict order. Storing under an existing key overwrites the node and keeps its position. |
| ActivityTree.SetParent | activity_network.py:456-458 | Only the guarded key's parent changes, and an absent key changes nothing. |
| ActivityTree.AppendChild | activity_network.py:357-359 | The node's children gain the child at the end when it is not already a child, and are unchanged otherwise. Every other field of the node, every other node and the key order stay as they were. |
| ActivityTree.NodeId | activity_network.py:442 | Ids start with `L`, contain no space or slash, and never equal `day_activity`. |
| ActivityTree.NodeIdLayers | activity_network.py:442 | Ids of different layers never coincide. |
| ActivityTree.NodeIdCollision | activity_network.py:442 | Any label shares its id with the label whose spaces and slashes are turned into underscores (`Code Editor` and `Code_Editor`, say), so the later node overwrites the earlier. |
| ActivityTree.LinkConcepts | activity_network.py:344-364 | Every concept of an activity gets a layer-2 node, the dict stays well formed, and no layer-2 node gets a repeated child. |
| ActivityTree.LinkConcept | activity_network.py:345-359 | The concept node exists afterwards and has the activity among its children. |
| ActivityTree.LinkConceptsParent | activity_network.py:361-364 | After the concept loop, the activity's parent is its first concept. With no concepts the parent stays `None`. |
| ActivityTree.AddActivity | activity_network.py:324-364 | One group adds its layer-1 node and a layer-2 node for each of its concepts, keeping the dict well formed. |
| ActivityTree.AddActivityNode | activity_network.py:330-364 | The layer-1 node has the group's name, layer 1, its entries' text and no children. Its parent is the first concept, or none for an empty concept list. |
| ActivityTree.FlattenMembers | activity_network.py:371 | A concept is in the flattened list exactly when some group has it. |
| ActivityTree.AddActivities | activity_network.py:324-366 | Step 3 gives a well-formed dict that holds a layer-2 node for every extracted concept. |
| ActivityTree.InitialConcepts | activity_network.py:371 | The layer-2 loop order is a permutation of the distinct extracted concepts: the same multiset, so each extracted concept appears once and nothing else does. |
| ActivityTree.AddLayer | activity_network.py:439-458 | A new layer adds a node for each broader concept and keeps the dict well formed. |
| ActivityTree.AddLayerParents | activity_network.py:441-458 | A node the new layer does not overwrite keeps every field but its parent. The parent becomes the node of the last broader concept whose children hold it, or stays as it was when none does. |
| ActivityTree.AddLayerChildren | activity_network.py:441-453 | The node of a broader concept whose id no later broader concept reuses is named after it, sits on the new layer with no content, and holds exactly the ids mapped to it, in order. |
| ActivityTree.AddLayerParentOfId | activity_network.py:425-458 | With ids from the layer below, every concept mapped to a broader concept ends with a parent on the new layer, the node of a broader concept whose children hold it. |
| ActivityTree.AggregationLoop | activity_network.py:374-461 | The loop stops with at most one concept at the current layer, or at the break with exactly two concepts one layer below `current_layer`. |
| ActivityTree.AggregationPass | activity_network.py:375-461 | One pass either breaks, leaving the concepts one layer below `current_layer`, or maps the concepts onto the broader ones, adds their layer, and goes on with the loop. Termination rests on the list shrinking, or being cut to half, on every pass that does not break. |
| ActivityTree.PassStops | activity_network.py:383-387 | A pass breaks, with the dict unchanged and `current_layer` raised, exactly when aggregation did not shrink the list and at most two concepts remain. |
| ActivityTree.PassFailsOnEmpty | activity_network.py:426-436 | A pass left with no broader concept raises modulo by zero. |
| ActivityTree.AggregationLoopWellFormed | activity_network.py:374-461 | The loop only adds keys, keeps every reference resolvable, and ends with the remaining ids in the dict. |
| ActivityTree.AddRoot | activity_network.py:465-481 | The root `day_activity` is at layer `current_layer + 1` and is labelled by the day summary. Its children are the remaining ids, and each of them takes it as parent. |
| ActivityTree.BuildTree | activity_network.py:303-481 | No entries gives the empty dict. Otherwise, unless a pass raised, the dict is well formed and topped by a parentless `day_activity` that is the parent of each of its children. Every parent is a node of the dict on a higher layer than its child. The only parentless nodes are the root and layer-1 nodes. |
| ActivityTree.AddRootShape | activity_network.py:465-481 | Adding the root over layered nodes whose only parentless nodes above layer 1 are the remaining ids leaves every parent above its child. It leaves only the root and layer-1 nodes parentless. |
| ActivityTree.RootParentsAbove | activity_network.py:468-481 | The remaining ids sit below the root, and every other node keeps a parent on a higher layer. |
| ActivityTree.RootAttached | activity_network.py:478-481 | Each remaining id takes the root as parent, so no other node above layer 1 is left without a parent. |
| ActivityTree.AddActivitiesLayered | activity_network.py:324-366 | After step 3 each node stored under a layer-`j` id is on layer `j`, and each parent is on a higher layer than its child. The only parentless nodes are layer-1 nodes and the nodes of extracted concepts. |
| ActivityTree.LinkConceptsLayered | activity_network.py:344-364 | The concept loop of one activity gives it a layer-2 parent, and the only new parentless nodes are its concepts' nodes. |
| ActivityTree.LinkConceptLayered | activity_network.py:345-364 | Linking one concept adds at most that concept's parentless layer-2 node, and keeps parents above children. |
| ActivityTree.PutLayered | activity_network.py:345-353 | Storing a parentless node on layer `k` under a layer-`k` id keeps parents above children. An overwritten node was on the same layer. |
| ActivityTree.SetParentsLayered | activity_network.py:455-458 | Children that take a parent on a higher layer keep parents above children. Every node keeps its layer. |
| ActivityTree.AddLayerKeys | activity_network.py:439-453 | A new layer adds no key besides its broader concepts' ids. |
| ActivityTree.AddLayerLayered | activity_network.py:439-458 | A layer built over the ids of the layer below keeps parents above children, with its own nodes one layer up. |
| ActivityTree.AddLayerParentless | activity_network.py:425-458 | When every label is a broader concept, each id of the layer below gets a parent. The only parentless nodes above layer 1 are then the new layer's. |
| ActivityTree.AggregationLoopLayered | activity_network.py:374-461 | The loop keeps parents above children. Above layer 1, it leaves only the remaining concepts' nodes parentless. |
| ActivityTree.Truncate | activity_network.py:539 | Content of at most 200 characters, or any content without truncation, is kept. Longer content becomes its first 200 characters plus `...`. |
| ActivityTree.TreeToDict | activity_network.py:533-545 | One record per node. |
| ActivityTree.TreeToDictRecords | activity_network.py:533-545 | Records follow the dict order, with distinct ids covering every node, and each record carries its node's fields. |
| ActivityTree.TreeToDictFull | activity_network.py:539 | Without truncation every record holds its node's full content. |
| LlmUtils.Lookup | llm_utils.py:182 | `get` on a decoded object finds a value exactly when the key is present, and the value is stored under that key. |
| LlmUtils.FenceBody | llm_utils.py:47-53 | A fenced reply yields the text up to the next fence, or to the end when there is none, minus a `json` tag. |
| LlmUtils.CleanResponse | llm_utils.py:44-54 | An unfenced reply is only trimmed. A fenced reply yields the trimmed text between the first two fences, minus a `json` tag. |
| LlmUtils.ClosingFence | llm_utils.py:48 | In a fenced `json` block, the closing fence is the first fence after the opening one. |
| LlmUtils.FencedRoundTrip | llm_utils.py:40-54 | A JSON text wrapped in a fenced `json` block comes back out unchanged. |
| LlmUtils.ParseJsonResponse | llm_utils.py:56-61 | A decodable cleaned reply is returned as decoded. Otherwise the fallback is applied to the cleaned text, or the error is re-raised when there is no fallback. |
| LlmUtils.ParseMappingResponse | llm_utils.py:172-182 | A reply that does not decode becomes the empty object. |
| LlmUtils.CleanItem | llm_utils.py:70 | A cleaned item has no quote or bracket at either end. |
| LlmUtils.Pieces | llm_utils.py:71 | The pieces joined by commas give the reply with newlines turned into commas, and no piece holds a comma or a newline. |
| LlmUtils.KeepItemsWellFormed | llm_utils.py:69-73 | Every salvaged item is non-empty and lower case, holds no separator, and has no quote or bracket at either end. |
| LlmUtils.KeepItemsInOrder | llm_utils.py:69-73 | The salvaged items are a subsequence of the cleaned pieces, so the reply's order is kept. |
| LlmUtils.FallbackList | llm_utils.py:64-73 | Every item is well formed, and the items appear in reply order. |
| LlmUtils.FallbackRoundTrip | llm_utils.py:64-73 | A comma-separated list of clean lower-case items is read back item for item. |
| Keystrokes.IgnoreKeysAreNames | keystroke_utils.py:29 | No ignored key is a single character. |
| Keystrokes.Reconstruct | keystroke_utils.py:14-44 | The text is never longer than the key list. |
| Keystrokes.ReplayAppend | keystroke_utils.py:25-44 | Replaying two key lists in turn is replaying their concatenation. |
| Keystrokes.ReconstructSnoc | keystroke_utils.py:25-44 | One more key acts on the text reconstructed so far. |
| Keystrokes.IgnoredKeyVanishes | keystroke_utils.py:26-30 | An ignored key, in any case, contributes nothing. |
| Keystrokes.BackspaceErases | keystroke_utils.py:33-35 | Backspace removes the last character and does nothing to an empty text. |
| Keystrokes.WhitespaceKeys | keystroke_utils.py:36-39 | `space` types a blank. `enter` and `return` type a line break. |
| Keystrokes.CharacterKeyTyped | keystroke_utils.py:40-42 | A one-character key is typed verbatim. |
| Keystrokes.OtherKeyDropped | keystroke_utils.py:32-42 | Any other multi-character key is dropped. |
| Keystrokes.TypeOutRoundTrip | keystroke_utils.py:14-44 | Typing a text one character at a time reconstructs exactly that text. |
| Keystrokes.RunsSnoc | keystroke_utils.py:75-87 | One more keystroke extends the last run when the application is unchanged, and otherwise opens a run with its timestamp. |
| Keystrokes.GroupKeystrokesByApp | keystroke_utils.py:47-93 | The loop yields the maximal same-application runs, keeping those whose first timestamp is non-empty. |
| Keystrokes.GroupEmpty | keystroke_utils.py:67-68 | An empty log has no groups. |
| Keystrokes.RunsKeepKeys | keystroke_utils.py:75-91 | The runs hold every key of the log, in order. |
| Keystrokes.GroupingKeepsKeys | keystroke_utils.py:67-91 | With non-empty timestamps, the groups' keys concatenated are the logged keys. |
| Keystrokes.RunsAlternate | keystroke_utils.py:77-85 | Neighbouring runs belong to different applications. |
| Keystrokes.LastRunStart | keystroke_utils.py:77-87 | The last run starts where the application last changed, and carries that keystroke's timestamp and every key since. |
| Keystrokes.RunStart | keystroke_utils.py:75-91 | Every run is a maximal block of consecutive keystrokes in one application: the keystrokes just before and just after it are in other applications, it carries its first keystroke's timestamp and its keys in order, and only the last run reaches the end of the log. |
| Keystrokes.BodyMarksBlank | keystroke_utils.py:111-121 | The app-switch marker replaces exactly the texts made only of whitespace. Any other text is shown unstripped. |
| Keystrokes.LinesOfGroup | keystroke_utils.py:110-122 | Group i occupies lines 4i to 4i+3: time, `[app]`, text or marker, and a blank line. |
| Keystrokes.FormatAppend | keystroke_utils.py:108-124 | Rendering two lists of groups joins their renderings with a line break. |
| Tracker.CountPositive | tracker.py:73-76 | An application has keystrokes exactly when it occurs in the buffer. |
| Tracker.MainApp | tracker.py:87-88 | The main application is a buffered one with the most keystrokes. |
| Tracker.MainAppFirst | tracker.py:88 | Ties go to the application seen first. |
| Tracker.CountByApp | tracker.py:73-76 | The dict's keys are the buffered applications in first-keystroke order, each mapped to its keystroke count. |
| Tracker.KeystrokeRows | tracker.py:79-83 | One keystroke-log row per buffered keystroke, in buffer order. |
| Tracker.BusiestApp | tracker.py:88 | Python's `max` over the dict yields the main application. |
| Tracker.AppRows | tracker.py:93-100 | One row per application, with the clicks credited to the main application only. |
| Tracker.SaveActivity | tracker.py:69-118 | The loop body, written with the source's loops and dict, computes the flush. |
| Tracker.CountsSumToBuffer | tracker.py:73-76 | The per-application counts add up to the buffer length. |
| Tracker.KeystrokesConserved | tracker.py:73-100 | The activity rows account for every buffered keystroke. |
| Tracker.ClicksConserved | tracker.py:85-109 | The activity rows account for every click, exactly once. |
| Tracker.OneRowPerApp | tracker.py:73-100 | There is one row per distinct buffered application, in first-keystroke order, with its positive keystroke count. |
| Tracker.ClicksToBusiestApp | tracker.py:87-95 | All clicks go to one row with the most keystrokes. Every earlier row has strictly fewer, and every other row gets none. |
| Tracker.FlushEffects | tracker.py:71-118 | With neither keystrokes nor clicks, nothing is written or changed. Otherwise each keystroke is written once, in order; the activity rows account for all keystrokes and clicks; and the counters and buffer are reset. |
| Tracker.ClicksWithoutKeystrokes | tracker.py:102-109 | Clicks with an empty buffer give exactly one row, for the foreground application, with no keystrokes. |
| CharModel.Vocab | ml_experiments/model.py:28 | The vocabulary is strictly increasing and holds exactly the characters of the text. |
| CharModel.VocabIsSortedSet | ml_experiments/model.py:28 | Any increasing sequence of exactly the text's characters is the vocabulary. |
| CharModel.NewTokenizer | ml_experiments/model.py:27-31 | `vocab_size` is the vocabulary's size. `stoi` is defined on exactly the text's characters, and `itos` on exactly the codes below `vocab_size`. |
| CharModel.StoiAt | ml_experiments/model.py:30 | A character's code is its position in the vocabulary. |
| CharModel.TokenizerBijection | ml_experiments/script.py:30-33 | `stoi` and `itos` are mutually inverse between the text's characters and the codes below `vocab_size`. |
| CharModel.StoiMonotone | ml_experiments/model.py:28-30 | `stoi` preserves character order. |
| CharModel.Encode | ml_experiments/model.py:33-34 | Encoding succeeds exactly when every character is known, and keeps the length. |
| CharModel.Decode | ml_experiments/model.py:36-37 | Decoding succeeds exactly when every code is known, and keeps the length. |
| CharModel.EncodeAt | ml_experiments/model.py:34 | The i-th code is the code of the i-th character. |
| CharModel.DecodeAt | ml_experiments/model.py:37 | The i-th character is the character of the i-th code. |
| CharModel.DecodeAfterEncode | ml_experiments/model.py:33-37 | Over a tokenizer whose `itos` undoes `stoi`, `decode(encode(s)) == s`. |
| CharModel.EncodeAfterDecode | ml_experiments/model.py:33-37 | Over a tokenizer whose `stoi` undoes `itos`, `encode(decode(l)) == l`. |
| CharModel.DecodeEncode | ml_experiments/script.py:35-39 | Text over the vocabulary encodes to as many codes, each below `vocab_size`, and decodes back to itself. |
| CharModel.EncodeDecode | ml_experiments/model.py:33-37 | Codes below `vocab_size` decode to text over the vocabulary and encode back to themselves. |
| CharModel.EncodeUnknown | ml_experiments/model.py:34 | Encoding raises exactly when some character was never seen. |
| CharModel.Length | ml_experiments/model.py:45-46 | The length is `len(data) - block_size`. A negative length makes `len()` raise. |
| CharModel.GetItem | ml_experiments/model.py:48-51 | Both windows have length `block_size`. The input is the data from `idx`, and the targets are the data from `idx + 1`. |
| CharModel.TargetsShift | ml_experiments/script.py:50-53 | The targets are the inputs shifted by one, followed by the next character. |
| CharModel.SliceDecodes | ml_experiments/model.py:33-37 | A slice of the encoded text decodes to the same slice of the text. |
| CharModel.WindowDecodes | ml_experiments/script.py:47-53 | Over the encoded text, the dataset's length is the text length minus `block_size`. Each input window decodes to its text slice, and its targets to the slice one character later. |

## Left out

- The regular-expression split of `parse_refined_text` (activity_network.py:65-69): the model starts from the list of sections it produces.
- Reading files, `print_tree_summary`, `save_tree_json` and `main`: file and console I/O.
- The Groq client and every network call. The replies are the `Oracle` parameter, and a raised call is `None`. The prompt texts are not modelled, only the inputs they are built from.
- `json.loads`: it is the `decode` field of the oracle, with `None` for `JSONDecodeError`. Python's `str()` of a nested list or dict is approximated without quote escaping.
- The `call_llm`, `extract_concepts_from_llm` and `aggregate_concepts_via_llm` wrappers of llm_utils.py: they are network calls around `parse_json_response`, which is modelled.
- Python's Unicode `lower()`, `strip()` and `isspace()`: modelled on ASCII.
- The iteration order of the `set` at activity_network.py:371: it is a parameter, constrained to be a permutation.
- tracker.py outside lines 69-118, the pynput listeners, threads, `osascript` and sqlite: the flush is a pure function from the counters to the rows it inserts. The clock's hour and the foreground application are parameters, and the row timestamp `datetime.now()` is left out.
- `format_timestamp_display` of date_utils.py: a parameter of `FormatGroups`. date_utils.py is not part of this model.
- The transformer, training and sampling in ml_experiments: floating point and torch.
- `torch.tensor`: a window is a sequence of codes.
- CharModel.GetItem: requires `idx < len(dataset)`, the indices the sampler draws. Python would also slice out of range without raising and return shorter windows.
- CharModel.Length: `block_size` is a natural number; negative block sizes are not modelled.
- ConceptOracle.AssignCategories: its ensures states only when it raises and the length of the result. What each label is, on every path, is stated by `ConceptOracle.AssignCategoriesLabels`.

## Where the code and its documentation differ

The model follows the code.

- activity_network.py:342 and 361 say an activity's parent is set once, to its first concept. That holds for layer 1 (363-364). From layer 3 up, though, 455-458 set a child's parent each time a broader concept lists it, so the last such concept wins (`ActivityTree.AddLayerParents`).
- activity_network.py:330, 345 and 442 build ids without lower-casing. Labels that differ only in spaces, slashes and underscores share an id, and the later node overwrites the earlier one (`ActivityTree.NodeIdCollision`).
- activity_network.py:138 promises 2-4 concepts, but the prompt at 155 allows `[]`. A layer-1 activity whose concept list is empty keeps no parent (`ActivityTree.AddActivityNode`).
- activity_network.py:198 promises roughly half the input, minimum 1. The JSON-array path at 234-235 is not cut to the target (`ConceptOracle.AggregateArrayWhole`). An empty JSON array returns `[]`, and the next mapping step then raises modulo by zero (`ActivityTree.PassFailsOnEmpty`).
- activity_network.py:376 announces aggregation "to Layer {current_layer}", and the comment at 383 says the loop forces a reduction or breaks. `current_layer` is raised at 375, before the break at 387, so no node is made on that layer. The root at 472 then sits two layers above the remaining concepts (`ActivityTree.PassStops`).
- keystroke_utils.py:51 and 57 describe one group per application change. The falsy-timestamp checks at 78 and 90 drop a group whose first timestamp is empty. So neighbouring groups have different applications only when every timestamp is non-empty; the runs always do (`Keystrokes.RunsAlternate`).
- The example in the `parse_json_response` docstring (llm_utils.py:39-42) shows a fenced reply whose text starts on the line after the `json` tag. That function trims again after removing the tag (llm_utils.py:54); the tree builder's copies at activity_network.py:229-232 and 417-420 do not. Such a reply reaches `json.loads`, or the salvage parser, with a leading line break (`ConceptOracle.ReplyBody`); `json.loads` tolerates it.
