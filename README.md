# ForksAndWords core, modelled in Dafny

ForksAndWords turns the descriptions of New York's Michelin restaurants into
LDA topics. Those topics are hand-labelled with consumer scenes, and the
labels are shown on Streamlit maps. This project models the rules underneath
that pipeline and proves what they promise:

- **`TopicModeling`** (`app/nlp_topic_modeling.py`). The description
  normaliser `custom_tokenizer`: lower-case, delete non-letters, split,
  drop stopwords and short tokens, stem. Also the space-joined TF-IDF text,
  the dominant topic of each document (first argmax), and the keyword
  skeleton, one record per topic with its ten heaviest terms.
- **`SceneTags`** (`app/apply_scene_tags.py`). `merge_scene_labels`:
  - the label-column check;
  - the `consumer_type` default taken from `topic_id`;
  - the left merge on `dominant_topic = topic_id`;
  - the drop of `topic_id`.

  Tables are ordered column lists with rows as maps from column to cell.
- **`RestaurantMap`** (`pages/2_Map.py`). `format_price`, the sorted,
  de-duplicated cuisine list headed by "ALL", and the three guarded
  star, price and cuisine filters.
- **`MarketingMap`** (`pages/3_Marketing_Map.py`). The two table stylers,
  the regex reduction of a long scene label to its short name, the
  known-scene pins with their price text and colour, and the scene
  selection.
- **`DataProcess`** (`pages/1_Data_Process.py`). The five-step selector
  kept in the session, the stopword and stemming views built token by
  token, and the document frequencies behind the TF-IDF tables.
- **`Collections`** and **`Text`**. Shared helpers:
  - the order-preserving mask filter;
  - Python's `str.lower`, `strip`, `split`, `join` and `sorted(set(...))`;
  - their laws, such as split-after-join and strip-commutes-with-lower.

Foreign code appears as parameters:
- the Porter stemmer is a function `stem`;
- the stopword lists are sets;
- the fitted LDA model is its document-topic rows and topic-term rows over a
  vocabulary, with exact `real` weights;
- the three mini documents of the TF-IDF demo are lists of tokens.

Widgets and button presses are parameters too.

## Model

| member | source | states |
|---|---|---|
| TopicModeling.CleanText | app/nlp_topic_modeling.py:40-41 | after lower-casing and the substitution, every remaining character is a lower-case ASCII letter or whitespace; the empty description stays empty |
| TopicModeling.CleanTextAppend | app/nlp_topic_modeling.py:40-41 | lower-casing and the substitution work character by character: cleaning a concatenation concatenates the cleaned parts |
| TopicModeling.CleanTextKeeps | app/nlp_topic_modeling.py:40-41 | an ASCII letter or whitespace character survives in place, lower-cased, between the cleaned text on its two sides |
| TopicModeling.CleanTextIdempotent | app/nlp_topic_modeling.py:40-41 | cleaning a cleaned description changes nothing |
| TopicModeling.CleanTextDeletes | app/nlp_topic_modeling.py:41 | a character outside `[a-zA-Z\s]` is deleted, not replaced: the text on its two sides is joined |
| TopicModeling.DropUninformative | app/nlp_topic_modeling.py:43 | every kept token is not a stopword and is longer than two characters, and no such token of the input is dropped |
| TopicModeling.FilteredTokensSpec | app/nlp_topic_modeling.py:39-43 | the tokens before stemming are an order-preserving subsequence of the words of the cleaned text, each a lower-case ASCII word that is informative, and no informative word is lost |
| TopicModeling.StemAll | app/stemmer_custom.py:27 | stemming is element-wise: same length, token i becomes `stem` of token i |
| TopicModeling.Tokenize | app/nlp_topic_modeling.py:39-45 | `custom_tokenizer`: one token per informative word of the cleaned description, in order, token i being the stem of informative word i |
| TopicModeling.TokenizeShrinks | app/nlp_topic_modeling.py:39-45 | the normalised token list is never longer than the whitespace-separated words of the raw description |
| TopicModeling.TokenizeGarbage | app/nlp_topic_modeling.py:39-45 | a description without an ASCII letter normalises to no tokens |
| TopicModeling.TfidfText | app/nlp_topic_modeling.py:52 | joining with single spaces is undone by `split()` whenever every token is a non-empty, whitespace-free word |
| TopicModeling.TfidfTextRoundTrip | app/nlp_topic_modeling.py:52 | splitting the space-joined TF-IDF text of a description gives back its token list |
| TopicModeling.ArgMax | app/nlp_topic_modeling.py:78 | the index returned holds the row's maximum and no earlier index does (ties go to the first) |
| TopicModeling.FirstMaxUnique | app/nlp_topic_modeling.py:78 | the first maximum is unique, so the argmax is determined |
| TopicModeling.DominantTopics | app/nlp_topic_modeling.py:60-78 | one dominant topic per document, below `NUM_TOPICS` = 8 and the first maximum of its row |
| TopicModeling.Ranking | app/nlp_topic_modeling.py:89 | the reversed argsort: a permutation of the candidate term indices in non-increasing weight order |
| TopicModeling.TopIndices | app/nlp_topic_modeling.py:89 | `argsort()[:-11:-1]`: min(10, vocabulary size) distinct indices, heaviest first, and no index left out outweighs one kept |
| TopicModeling.TopWords | app/nlp_topic_modeling.py:89 | the top words are the vocabulary terms at those indices: min(10, vocabulary size) terms of the vocabulary, distinct when the vocabulary is, none outweighed by a term left out |
| TopicModeling.KeywordRecord | app/nlp_topic_modeling.py:90-95 | the record of topic k has `topic_id` = `consumer_type` = k, an empty `consumer_scene`, and `top_words` holding the top words joined by ", " |
| TopicModeling.KeywordCell | app/nlp_topic_modeling.py:89-94 | the `top_words` cell reads back: split at the commas and stripped, it gives the top words in order, for a vocabulary of comma-free words |
| TopicModeling.RunLda | app/nlp_topic_modeling.py:47-95 | each document keeps its description, gets its tokens, its space-joined TF-IDF text and its first-argmax topic; exactly 8 keyword records, in topic order, with `topic_id` = `consumer_type` = the topic index, an empty `consumer_scene` and the top words joined by ", " |
| SceneTags.FillMissing | app/apply_scene_tags.py:27 | a missing `consumer_type` cell takes the same row's `topic_id`, a present one is kept, every other cell and the table shape stay |
| SceneTags.TopicLabels | app/apply_scene_tags.py:27 | the two label cells of a topic row after the default |
| SceneTags.Select | app/apply_scene_tags.py:34 | selecting columns keeps every row, restricted to exactly those columns, in the listed order |
| SceneTags.FindTopic | app/apply_scene_tags.py:33-37 | the topic row found carries the key; when none is found no row carries it |
| SceneTags.SelectedLabels | app/apply_scene_tags.py:27-34 | the filled, selected topic table is the label-row view of the topic table |
| SceneTags.LeftMerge | app/apply_scene_tags.py:33-38 | the merged table is well formed and its columns are the restaurant columns followed by the label columns |
| SceneTags.MergedRowsWellFormed | app/apply_scene_tags.py:33-38 | every merged row holds exactly the columns of both tables |
| SceneTags.DropColumn | app/apply_scene_tags.py:41 | dropping a column removes it from the column list and from every row and keeps every row |
| SceneTags.NoMatchingLabelRows | app/apply_scene_tags.py:38 | a dominant topic that no topic row carries matches no label row |
| SceneTags.MatchingLabelRows | app/apply_scene_tags.py:33-37 | with unique topic ids a key matches exactly the label row of its topic, or none |
| SceneTags.JoinUnique | app/apply_scene_tags.py:33-41 | with unique topic ids one restaurant row joins to exactly one row, which after the drop is the restaurant row plus its topic's labels, or null labels on a miss |
| SceneTags.MergeUnique | app/apply_scene_tags.py:33-41 | with unique topic ids the merge followed by the drop is exactly the labelled restaurant rows, one per row, in order |
| SceneTags.MergeKeepsRows | app/apply_scene_tags.py:33-38 | whatever the topic table holds, every restaurant row survives the left merge, in its original order |
| SceneTags.Merged | app/apply_scene_tags.py:27-41 | the written table is well formed and its columns are the restaurant columns plus `consumer_type` and `consumer_scene`; `topic_id` and `top_words` are gone |
| SceneTags.MergedKeepsRows | app/apply_scene_tags.py:33-41 | the output has at least as many rows as the restaurant table, and its restaurant cells contain every restaurant row in order |
| SceneTags.MergedLabels | app/apply_scene_tags.py:27-41 | with unique topic ids, output row i is restaurant row i with the defaulted labels of its dominant topic, or null labels when no topic has that id |
| SceneTags.MergeSceneLabels | app/apply_scene_tags.py:20-41 | the `ValueError` is raised iff a label column is missing, before any other error; a missing `topic_id` or `dominant_topic` is the matching `KeyError`; otherwise the result is the merged table |
| RestaurantMap.FormatPrice | pages/2_Map.py:17-18 | codes 1-4 get their four distinct dollar ranges, which decode back to the code; everything else, a missing price included, is "N/A" |
| RestaurantMap.Pieces | pages/2_Map.py:23 | piece i is field i of `split(",")` with surrounding whitespace stripped, one piece per field, none holding a comma or surrounding whitespace |
| RestaurantMap.PiecesJoin | pages/2_Map.py:23 | a tag written as clean names joined by commas splits back into those names |
| RestaurantMap.TagPieces | pages/2_Map.py:23 | every collected piece is comma-free and stripped |
| RestaurantMap.TagPiecesMembers | pages/2_Map.py:23 | a piece is collected iff some non-missing tag has it |
| RestaurantMap.TagText | pages/2_Map.py:47 | `str(t)`: a present tag is its own text, and a missing one reads "nan", whose only piece is "nan" |
| RestaurantMap.CuisineOptions | pages/2_Map.py:23-24 | "ALL" first, then a strictly ascending, duplicate-free list holding exactly the stripped pieces of the non-missing tags |
| RestaurantMap.Selected | pages/2_Map.py:40-48 | with every filter switched off every row is selected; a price filter never selects a row without a price; past the cuisine filter, a row without a tag is selected only when "nan" is a chosen cuisine |
| RestaurantMap.FilterRestaurants | pages/2_Map.py:40-48 | the three guarded narrowing steps equal the single mask of the conjunction of the three filters: an order-preserving subsequence holding exactly the selected rows |
| RestaurantMap.NoCuisineNoRows | pages/2_Map.py:45-48 | an empty cuisine selection, without "ALL", removes every row |
| RestaurantMap.DefaultSelection | pages/2_Map.py:29-48 | the default widgets keep exactly the one- to three-star restaurants priced 3 or 4 |
| MarketingMap.HighlightFirstRow | pages/3_Marketing_Map.py:23-24 | every cell of row 0 gets the header style, every cell of any other row none |
| MarketingMap.OnlyFirstRowHighlighted | pages/3_Marketing_Map.py:23-26 | over a whole table, a cell is styled iff it lies in the first row |
| MarketingMap.StyleScene | pages/3_Marketing_Map.py:31-41 | every cell of a row gets the same style: the colour of its long scene name, or none iff the scene is missing or unknown |
| MarketingMap.Extract | pages/3_Marketing_Map.py:49 | `^(.*?)\s*\(`: the group of the match with the shortest group, or nothing iff no match exists |
| MarketingMap.CleanScene | pages/3_Marketing_Map.py:49 | the short scene is the shortest matching prefix; without a match, or without "(", the whole label is kept |
| MarketingMap.CleanLongName | pages/3_Marketing_Map.py:49 | a long label built as short name, space and parenthesised detail reduces to the short name |
| MarketingMap.ColouredNamesAreShort | pages/3_Marketing_Map.py:52-57 | every coloured scene name is a short name, so its long labels reduce to it |
| MarketingMap.SceneKeysComplete | pages/3_Marketing_Map.py:65 | the selector offers exactly the coloured scenes |
| MarketingMap.RowScene | pages/3_Marketing_Map.py:49 | a missing scene stays missing (`fillna` restores it), a present one becomes its short scene, a prefix of the label |
| MarketingMap.PriceDisplay | pages/3_Marketing_Map.py:60 | "$100+" iff the price code is 4, "$50–99" otherwise, a missing price included |
| MarketingMap.ScenePins | pages/3_Marketing_Map.py:49-61 | one pin per row whose short scene is known, in order, carrying that scene, its RGB colour and exactly the price text of its price code |
| MarketingMap.SelectScenes | pages/3_Marketing_Map.py:66 | an order-preserving subsequence holding exactly the pins whose scene is selected |
| MarketingMap.DefaultSelectionShowsAll | pages/3_Marketing_Map.py:65-66 | with the default selection every pin is shown |
| DataProcess.NextStep | pages/1_Data_Process.py:28-57 | the step of a pressed button that no pressed button further right in the row overrides; with no press, the kept step or, in a fresh session, the raw text |
| DataProcess.PressSelects | pages/1_Data_Process.py:41-57 | each of the five buttons selects its own step, whatever the step was |
| DataProcess.NoPressKeeps | pages/1_Data_Process.py:28-57 | without a press the step is kept, and a fresh session starts at the raw text |
| DataProcess.IsStopword | pages/1_Data_Process.py:83-84 | the stopword view's test (lower, then strip `.,!?`) holds iff the stemming view's test (strip, then lower) does |
| DataProcess.StopItem | pages/1_Data_Process.py:83-87 | a token is struck out iff `tok.lower().strip(".,!?")` is a stopword, and it is shown with its own text |
| DataProcess.StopwordItems | pages/1_Data_Process.py:81-88 | one item per whitespace token, in order, each struck out iff the token is a stopword |
| DataProcess.Base | pages/1_Data_Process.py:95 | `tok.strip(".,!?")`: no longer than the token, neither starting nor ending with `.,!?`, and the token itself when it does neither |
| DataProcess.Punct | pages/1_Data_Process.py:101 | exactly the token after its first `len(base)` characters, the empty string included; only `.,!?` when the token does not start with one |
| DataProcess.BaseAndPunctRestore | pages/1_Data_Process.py:95-101 | a token without leading `.,!?` is its base followed by its punctuation |
| DataProcess.LeadingPunctLost | pages/1_Data_Process.py:95-101 | a token with leading `.,!?` that is not all punctuation is not its base followed by its punctuation |
| DataProcess.LeadingPunctShifts | pages/1_Data_Process.py:95-106 | with n leading marks (n at most the base's length), the shown punctuation is the base's last n characters followed by the trailing marks, so "...cooking" shows the stem of "cooking" followed by "ing" |
| DataProcess.StemItem | pages/1_Data_Process.py:94-111 | struck out iff a stopword; drawn as changed iff no stopword and the stem differs from the base, then showing the base and the stem followed by the punctuation; otherwise shown with its original text |
| DataProcess.StemItems | pages/1_Data_Process.py:93-111 | one stemming-view item per token, in order |
| DataProcess.DocFreq | pages/1_Data_Process.py:149 | df(t) is exactly the number of documents in which t occurs (the length of the documents filtered on a positive count of t): at most N, and positive iff t occurs in some document |
| DataProcess.Vocabulary | pages/1_Data_Process.py:134-136 | the matrix columns are strictly ascending and are exactly the terms of the documents |
| DataProcess.DocFreqBounds | pages/1_Data_Process.py:148-149 | every vocabulary term has 1 <= df(t) <= N, so N / df(t) is defined |
| DataProcess.Session.Run | pages/1_Data_Process.py:23-115 | the step defaults to raw, the last pressed button wins, and exactly the view of the resulting step is drawn with its content: stripped text, whitespace tokens, stopword items, stem items or the document counts |
| Text.Split | pages/1_Data_Process.py:23 | every piece of `str.split()` is a non-empty, whitespace-free word made of the input's characters |
| Text.SplitSpace | pages/1_Data_Process.py:23 | `str.split()` cuts at every whitespace character: the words of `a + c + b` for whitespace `c` are those of `a` followed by those of `b` |
| Text.SplitWord | pages/1_Data_Process.py:23 | a non-empty whitespace-free word splits into itself alone |
| Text.SplitJoin | app/nlp_topic_modeling.py:52 | splitting words joined by single spaces gives the words back |
| Text.StripLower | pages/1_Data_Process.py:83-96 | stripping characters that lower-casing leaves alone commutes with lower-casing |
| Text.Strip | pages/2_Map.py:23 | `strip`: no longer than its input, neither end a removed character, and the input itself when neither of its ends is one |
| Text.StripSlice | pages/2_Map.py:23 | the stripped string is a slice `s[k..m]` of the input with only removed characters before `k` and from `m` on |
| Text.LowerAppend | app/nlp_topic_modeling.py:40 | `lower` works character by character, so it distributes over concatenation |
| Text.LowerIdempotent | app/nlp_topic_modeling.py:40 | lower-casing twice is lower-casing once |
| Text.SplitOn | pages/2_Map.py:23 | `split(",")` always gives at least one field, no field holds the separator, and joining the fields with it gives the input back |
| Text.CommaSpaceRoundTrip | app/nlp_topic_modeling.py:92 | `", ".join` of comma-free words, split at the commas and stripped, gives the words back |
| Text.LessIrreflexive | pages/2_Map.py:23 | no string sorts before itself |
| Text.LessTransitive | pages/2_Map.py:23 | the order `sorted` uses on strings is transitive |
| Text.LessTotal | pages/2_Map.py:23 | of two different strings one sorts before the other |
| Text.SortedUnique | pages/2_Map.py:23 | `sorted(set(xs))`: strictly ascending and holding exactly the strings of `xs` |
| Collections.FilterIsSubsequence | pages/2_Map.py:40-48 | a boolean mask keeps rows in their order without duplicating any |
| Collections.FilterFilter | pages/2_Map.py:40-48 | two successive masks select the same rows as one conjoined mask |

## Left out

- Reading and writing the Excel and CSV files, the paths, and `os.makedirs` are left out. So is the mismatch between the `data/` directory the topic pipeline writes and the `data/processed/` directory the merge reads: all tables are parameters.
- `nltk.word_tokenize` is modelled as a whitespace split. Its splitting of contractions and punctuation is foreign code.
- The Porter stemmer, `TfidfVectorizer`, `CountVectorizer` and `LatentDirichletAllocation` are foreign code. The stemmer is a function parameter, and the fitted model is given by its weight rows.
- All floating-point work is left out: TF, IDF and TF-IDF values and their rounding, LDA weights as floats (exact reals instead), and the map centres with their defaults.
- Rendering is left out: HTML spans, Streamlit widgets, pydeck layers, tooltips and map styles. Views are modelled as the item lists they are built from.
- `Home.py` and `app/main.py` hold only presentation and an interactive menu loop.
- TopicModeling.Ranking: ties are ordered by lower index. That is one admissible outcome of numpy's unstable `argsort`, whose tie order is unspecified.
- TopicModeling.TokenizeShrinks: holds for the whitespace split and ASCII lower-casing modelled here. `nltk.word_tokenize` splits some words apart ("cannot" gives "can" and "not"), so the real token list can be longer.
- TopicModeling.TokenizeGarbage: holds for ASCII lower-casing only. Python's `lower` maps some non-ASCII letters to ASCII ones (the Kelvin sign "\u212A" becomes "k"), so a description without an ASCII letter can still yield tokens.
- TopicModeling.TfidfTextRoundTrip: it assumes the stemmer maps a word to a non-empty, whitespace-free word. The Porter stemmer's internals are not visible.
- Text.Lower: `str.lower` is modelled on ASCII letters only. Other characters are unchanged, so non-ASCII case folding is not modelled.
- TopicModeling.CleanText: a missing (NaN) description would raise in the source. Descriptions are modelled as strings.
- TopicModeling.RunLda: `TfidfVectorizer().fit_transform` raises a ValueError (empty vocabulary) when no description yields a single token; the model does not raise, it accepts an empty vocabulary and gives keyword records whose `top_words` is empty.
- DataProcess.Session.Run: the mini documents of the TF-IDF demo are given as token lists, so `CountVectorizer`'s own tokenisation is not modelled. The empty-vocabulary error it raises is not modelled either.
- DataProcess.Session.Run: any combination of button presses is allowed in one run. Streamlit delivers at most one click per run, and for one press the model agrees.
- SceneTags.MergeSceneLabels: it requires the restaurant table to hold none of the label columns. pandas would suffix overlapping names (`_x`, `_y`), which is not modelled. Merge key dtype checks are not modelled either, and a cell equals another only when both are the same integer or string.
- SceneTags.FillMissing: the CSV reader turning empty fields into NaN is taken as given, since cells are already `Null` or values.
- MarketingMap.ScenePins: when no row has a scene label (the state the topic pipeline leaves before manual labelling, since it writes empty scenes that the CSV reader turns into NaN), pandas types the `consumer_scene` column as float and `.str.extract` raises `AttributeError`. The model instead returns no pins, an empty map; the raise is not modelled.
- RestaurantMap.Restaurant: the `star` column is taken as always present. The map's latitude and longitude columns are not modelled.
