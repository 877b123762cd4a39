# Arabic diacritization editor: segmentation and indexing core

This project models the server-side core of a web editor for Arabic diacritics
(`utils.py`). The editor takes a verse and:

- cuts it into whitespace-separated tokens (`text.split()`);
- cuts each token into units of one base character followed by the diacritics
  attached to it (`split_arabic_text`);
- gives every unit whose base is an Arabic letter two numbers: its local index
  within the word and its global index across the document;
- records each such letter in two tables, one keyed by the global index
  (`char_dict_global`) and one keyed by `"{word}_{local}"` (`char_dict_local`);
- records each word in `wd_dict`;
- renders the verse as nested `<span>` markup. A letter gets a character span
  and a diacritic span that share its global index. Any other unit gets a plain
  span. Each word's spans are wrapped in a word container, and the containers
  are joined by single spaces.

Modules:

- `Strings` (`strings.dfy`): runs of characters inside or outside a class;
  `sep.join` and `"".join`.
- `Segmenter` (`segmenter.dfy`): `split_arabic_text` as the left-to-right scan
  that `re.findall` performs with the pattern "one non-diacritic, then any
  diacritics".
- `Words` (`words.dfy`): `str.split()` with no argument.
- `Emitter` (`emitter.dfy`):
  - `create_char_span`, `create_dia_span`, `create_word_span` and the plain
    span, with every literal piece of their text;
  - the decimal rendering of indices;
  - the string key of the per-word table;
  - a reader's view of markup: the visible text, meaning the characters
    outside `<...>`.
- `Indexer` (`indexer.dfy`):
  - `char_has_dia`;
  - reference definitions of everything `text_to_html_spans` returns;
  - the pass itself as methods with loops that reassign the maps.
    `TextToHtmlSpans` is the outer loop, `IndexWord` its body, `IndexUnits`
    the inner loop and `IndexUnit` its body. Each is proved equal to the
    reference definitions.
- `Tables` (`tables.dfy`): what the returned tables say:
  - the two character tables agree;
  - global indices follow document order;
  - the record flags are fixed by construction;
  - the error case.
- `Display` (`display.dfy`): what the returned markup shows.
- `Crossref` (`crossref.dfy`): the markup and the tables carry the same
  numbers. Each letter's fragment is the character span and diacritic span
  built from its record's character, diacritics, local, global and word
  indices. Every record is shown in its own word's container, and every
  letter's fragment has its record.
- `Scenario` (`scenario.dfy`): the repository's unit test on "أَبٌ".

The character classes are parameters: the alphabet `list_ar_alpha`, the
diacritic set `set_ar_dia` and the whitespace that `str.split` separates on.

Modelling choices:

- `char_dict_local` is keyed by the pair (word index, local index).
  `Emitter.LocalKeyInjective` proves that the source's string key
  `f"{wd_idx}_{char_idx}"` never gives two pairs the same key, so the pair
  key loses nothing.
- `total_diacritics` is only assigned inside the word loop. When the text has
  no tokens, the `return` raises `UnboundLocalError`. The model returns
  `UnboundTotal` in that case.
- Empty input might be expected to give empty tables. The code raises
  instead, and the model follows the code (`Tables.EmptyInputFails`).
- The markup's visible text does not reproduce every token. Two cases lose
  text:
  - a plain span shows only its base character, so diacritics on a
    non-letter vanish;
  - diacritics at the start of a token match nothing, so they vanish too.

  The model states exactly what is shown (`Display.TextShows`, `Display.Kept`),
  and `Display.KeptWhole` gives the condition under which a token shows
  unchanged.

## Model

| member | source | states |
|---|---|---|
| Strings.Run | utils.py:9-12 | the length of the maximal leading run of characters inside (or outside) a class, as a regex character-class repetition matches it |
| Strings.JoinWith | utils.py:113 | definition of `sep.join`; its behaviour on markup is stated by `Emitter.JoinText`, and on tokens by `Words.TokensOfJoin` |
| Strings.Concat | utils.py:55 | definition of `"".join`; its behaviour on markup is stated by `Emitter.ConcatText`, and on tokens by `Words.TokensCover` |
| Segmenter.Split | utils.py:7-13 | every unit has a base that is not a diacritic and marks that are all diacritics |
| Segmenter.SplitWithin | utils.py:12-13 | every character of every unit comes from the word |
| Segmenter.SplitCoversWord | utils.py:9-13 | writing the units back out gives the word minus its leading run of diacritics |
| Segmenter.LeadingMarksDropped | utils.py:9-12 | diacritics before the first base character are skipped and change nothing |
| Segmenter.SplitFlatten | utils.py:7-13 | splitting well-formed units written out gives those units back (round trip) |
| Segmenter.SplitCount | utils.py:10-12 | there are exactly as many units as base characters |
| Segmenter.SplitKeepsBases | utils.py:10-12 | every base character of the word is the base of some unit |
| Words.Tokens | utils.py:67 | tokens are non-empty, hold no whitespace and take their characters from the text |
| Words.NoTokensIffBlank | utils.py:67 | there are no tokens exactly when the text is empty or all whitespace |
| Words.TokensOfJoin | utils.py:67 | splitting tokens joined by single spaces gives the tokens back |
| Words.TokensCover | utils.py:67 | writing the tokens out one after another gives exactly the text's non-whitespace characters, in order |
| Words.TokensOfSpaced | utils.py:67 | tokens separated by any non-empty runs of whitespace, with any whitespace (or none) at either end, split back to exactly those tokens |
| Words.Gaps | utils.py:67 | the whitespace around and between the tokens is blank, and non-empty between two tokens and before a text that starts with whitespace |
| Words.GapsInterleave | utils.py:67 | every text is its tokens interleaved with those gaps, so `Words.TokensOfSpaced` fixes the tokens of every text |
| Words.TokensAfterBlank | utils.py:67 | leading whitespace does not change the tokens |
| Words.TokensOfFirst | utils.py:67 | a token followed by the end or by whitespace is the first token, and the rest are the tokens of what follows |
| Emitter.NatToString | utils.py:22-25 | definition of the decimal rendering inside the f-strings; its behaviour is stated by `Emitter.NatToStringDigits` and `Emitter.ParseNatToString` |
| Emitter.LocalKey | utils.py:102 | definition of the key `f"{wd_idx}_{char_idx}"`; its behaviour is stated by `Emitter.LocalKeyInjective` |
| Emitter.CharSpan | utils.py:16-27 | definition of `create_char_span`, literal piece by literal piece; its behaviour is stated by `Emitter.CharSpanText` |
| Emitter.DiaSpan | utils.py:30-41 | definition of `create_dia_span`, literal piece by literal piece; its behaviour is stated by `Emitter.DiaSpanText` |
| Emitter.WordSpan | utils.py:44-56 | definition of `create_word_span`, literal piece by literal piece; its behaviour is stated by `Emitter.WordSpanText` |
| Emitter.PlainSpan | utils.py:107 | definition of the plain span `<span class="char">{char}</span>`; its behaviour is stated by `Emitter.PlainSpanText` |
| Emitter.NatToStringDigits | utils.py:22-25 | an index is rendered as a non-empty run of decimal digits |
| Emitter.ParseNatToString | utils.py:102 | the decimal text of an index reads back as that index |
| Emitter.LocalKeyInjective | utils.py:102 | two (word, local) pairs with the same key `"{w}_{l}"` are the same pair |
| Emitter.CharSpanText | utils.py:16-27 | the character span shows exactly its character and ends outside any tag (every `<` is followed by its `>`) |
| Emitter.DiaSpanText | utils.py:30-41 | the diacritic span shows exactly its diacritics, even though they also stand in its `data-dia` attribute |
| Emitter.PlainSpanText | utils.py:107 | the plain span shows exactly its character |
| Emitter.ConcatText | utils.py:55 | fragments that end outside any tag, joined with no separator, show their texts in order |
| Emitter.WordSpanText | utils.py:44-56 | the word container shows its fragments' texts in order and ends outside any tag |
| Emitter.JoinText | utils.py:113 | containers that end outside any tag, joined by single spaces, show their texts joined by single spaces |
| Indexer.CharHasDia | utils.py:59-63 | definition of `char_has_dia`: alphabet membership of the character; its behaviour is stated by `Indexer.CharHasDiaIgnoresDia` |
| Indexer.CharHasDiaIgnoresDia | utils.py:59-63 | `char_has_dia` does not depend on the diacritics, and the guard `char_is_alpha and has_dia` is alphabet membership alone |
| Indexer.WordRecordOf | utils.py:80-84 | definition of a `wd_dict` entry; its behaviour is stated by `Tables.IsWordIff` and `Indexer.WordIndexTable` |
| Indexer.Record | utils.py:92-100 | definition of a `char_data` record; its behaviour is stated by `Tables.RecordsIndexed` and `Crossref.FragmentOfRecord` |
| Indexer.Letters | utils.py:77 | a word never has more letters than units |
| Indexer.OffsetMonotone | utils.py:105 | the running global index never decreases from word to word |
| Indexer.Fragments | utils.py:85-107 | the inner loop emits exactly one fragment per unit |
| Indexer.WordIndexTable | utils.py:80-84 | `wd_dict` has exactly the keys 0..n-1, each mapped to that token's entry |
| Indexer.GlobalIndexTable | utils.py:99-101 | `char_dict_global` maps exactly the indices below the letter count, each to the record of the letter in that place |
| Indexer.GlobalExtendTable | utils.py:101-105 | part way through a word, the global table holds exactly the letters before that point |
| Indexer.LocalIndexTable | utils.py:102 | `char_dict_local` maps exactly the (word, local) pairs of letters, each to that letter's record |
| Indexer.LocalExtendTable | utils.py:102-104 | part way through a word, the local table holds exactly the letters before that point |
| Indexer.TextToHtml | utils.py:66-119 | reference definition of the whole result of `text_to_html_spans`; its behaviour is stated by `Indexer.TextToHtmlProduces`, and the loops are proved equal to it by `Indexer.TextToHtmlSpans` |
| Indexer.TextToHtmlProduces | utils.py:66-119 | the result is an error exactly when there are no tokens; otherwise its counts, markup, word table and both character tables are as described above |
| Indexer.TextToHtmlSpans | utils.py:66-119 | the two nested loops return the reference result |
| Indexer.IndexWord | utils.py:75-110 | one outer iteration takes every accumulator from its value for the first w words to its value for the first w+1 |
| Indexer.IndexUnits | utils.py:85-107 | the inner loop advances the global index by the word's letter count, emits the word's fragments and enters its letters in both tables |
| Indexer.IndexUnit | utils.py:86-107 | a letter moves both indices on and is entered in both tables under its keys; any other unit changes nothing but the fragments |
| Tables.Locate | utils.py:99-105 | every global index below the total belongs to a letter at a known (word, local) place |
| Tables.DocumentOrder | utils.py:104-105 | one letter's global index is smaller than another's exactly when it comes earlier in the text (both directions) |
| Tables.LettersAreLetters | utils.py:77 | every unit counted in `wd_dia_count` has an alphabet letter as base and is a unit of the word |
| Tables.LettersExist | utils.py:77-79 | the count is positive exactly when some unit has a letter as base |
| Tables.GlobalTableEntry | utils.py:99-105 | every key of a finished global table is the global index of a letter, offset by its local index, and holds that letter's record |
| Tables.LocalTableEntry | utils.py:99-105 | every key of a finished local table is a letter's (word, local) place; it holds that letter's record, and the global table holds the same record under the letter's global index |
| Tables.GlobalEntry | utils.py:99-101 | the record under global index g is that of the letter whose place maps to g |
| Tables.LocalEntry | utils.py:101-102 | the record under a pair is that letter's record, and the same record stands in the global table |
| Tables.TablesAgreeIndexed | utils.py:92-102 | both tables hold the same records, each under the keys the record itself names, as many as `total_diacritics` |
| Tables.TextTablesAgree | utils.py:66-119 | the tables returned for any text agree in that way |
| Tables.DocumentOrderIndexed | utils.py:99-105 | global index order is document order (word, then position in the word) |
| Tables.TextInDocumentOrder | utils.py:66-119 | the tables returned for any text are numbered in document order |
| Tables.RecordsIndexed | utils.py:77-100 | each record has `has_dia` and `in_word` true and a letter as `char`; its word counts as a word and holds (char, dia) as a unit; every letter a word counts has a record |
| Tables.TextRecordsDescribeWords | utils.py:66-119 | the records returned for any text describe its words in that way |
| Tables.IsWordIff | utils.py:77-79 | `isWord` holds exactly when some unit of the word has a letter as base |
| Tables.IsWordIffHasLetter | utils.py:77-79 | when letters are not diacritics, `isWord` holds exactly when some character of the word is a letter |
| Tables.EmptyInputFails | utils.py:67-115 | the call fails with `total_diacritics` unbound exactly when the text is empty or all whitespace |
| Display.FragmentText | utils.py:86-107 | a letter's fragment shows the letter and its diacritics; any other unit's fragment shows its base only |
| Display.FragmentsText | utils.py:85-107 | every fragment of a word shows its unit that way |
| Display.WordText | utils.py:108-110 | a word container shows what the word keeps |
| Display.ContainersText | utils.py:75-110 | every container shows what its word keeps |
| Display.MarkupText | utils.py:113 | the document shows each token as it keeps it, separated by single spaces, when no token holds `<` and no diacritic `>` (`Display.Embeddable`) |
| Display.TextShows | utils.py:66-119 | the returned markup shows the tokens of the text, each as it keeps it, separated by single spaces |
| Display.ConcatUnits | utils.py:13 | joining the units' texts gives the units written out |
| Display.KeptWhole | utils.py:86-107 | a token that starts with a base character and has diacritics only on letters shows exactly as written |
| Crossref.LettersAt | utils.py:77-104 | a unit with a letter as base is the letter whose local index is the number of letters before it in the word |
| Crossref.LetterUnit | utils.py:86-104 | every local index below the word's letter count belongs to a letter unit with exactly that many letters before it |
| Crossref.FragmentsPrefix | utils.py:85-107 | the inner loop only appends: the fragments of the first m units do not depend on the later ones |
| Crossref.FragmentAt | utils.py:86-107 | fragment k of a word is the fragment of unit k, whose local index is the number of letters before it and whose global index is that far from the word's start |
| Crossref.LetterFragmentAt | utils.py:86-103 | fragment k of a word whose unit k is a letter is the span pair of any record holding that unit's character and diacritics, its word, the letters before it as local index and that far from the word's start as global index |
| Crossref.FragmentOfRecord | utils.py:89-103 | a letter unit's fragment is exactly the span pair of the record stored for that letter, with the same character, diacritics, local, global and word index |
| Crossref.ContainersPrefix | utils.py:75-110 | the outer loop only appends: the first m containers do not depend on the later words |
| Crossref.ContainerAt | utils.py:108-109 | container w of the document wraps the fragments of word w |
| Crossref.RecordHasFragment | utils.py:89-103 | the record under any global index is shown, as its span pair, by a fragment of its own word |
| Crossref.FragmentHasRecord | utils.py:89-103 | every letter's fragment is the span pair of some record of the global table |
| Crossref.RecordsShownIndexed | utils.py:75-110 | every record of a finished global table is shown in its word's container |
| Crossref.LettersRecordedIndexed | utils.py:75-110 | every letter's fragment in a finished markup has its record in the global table |
| Crossref.TextMarkupMatchesTables | utils.py:66-119 | for any text, the markup is the word containers joined by spaces, container w wraps word w's fragments, and the records and the letters' fragments match in both directions |
| Scenario.SampleTokens | test_utils.py:9-53 | "أَبٌ" is one token |
| Scenario.SampleUnits | test_utils.py:9-53 | "أَبٌ" is the units (أ, َ) and (ب, ٌ) written out |
| Scenario.SampleLetters | test_utils.py:9-53 | both units of "أَبٌ" are letters |
| Scenario.SimpleWord | test_utils.py:9-53 | "أَبٌ" gives 1 token, 2 in total, a word entry with count 2, and records 0 and 1 (أ with fatha, then ب with dammatan) in both tables |

## Left out

- The character data (`list_ar_alpha`, `set_ar_dia` from `ar_data`) is not part of
  this model. The three character classes are parameters.
- Regex construction in `split_arabic_text`: the model scans the word directly.
  The pattern is `[^…][…]*` built by joining the diacritic set into brackets, and
  the model assumes no diacritic needs escaping inside a character class.
- `str.split()` with no argument separates on Unicode whitespace. The model takes
  the whitespace set as a parameter rather than listing Python's.
- The Alpine.js meaning of the `:class` bindings (which element gets the focus
  class at run time) is not modelled. Their text is reproduced literally.
- Escaping: the source puts characters and diacritics into the markup unescaped.
  The visible-text lemmas therefore require the text to hold no `<`, and no `>`
  when `>` is a diacritic (it would then stand inside a `data-dia` attribute).
  They say nothing about other text.
- Tag balance: the markup lemmas state that the markup shows the intended text
  and ends outside any tag. They do not state that each `<span` is matched by
  its own `</span>`.
- Python dictionaries keep insertion order. The model's maps are unordered.
  `Tables.InDocumentOrder` and `Tables.TextInDocumentOrder` state the order of
  the global keys instead.
- `utils.py:101-102` stores one dict object in both tables. The model stores
  two equal records. No record is changed after it is stored, so the sharing
  is not observable.
- `app.py` (the web routes) and the end-to-end browser tests are not part of this
  model.
