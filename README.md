# Word store synchronisation, modelled in Dafny

This project models the word-store logic of `database_utils.py`: the part of a chatbot that keeps its vocabulary database in step with JSON word lists and with definitions fetched from two web dictionaries.

The database is held in memory:

- `words` is a map from word to row. A row holds the lemma, ipa, pos and definition.
- `tables` is a map from category table name (`nouns`, `verbs`, `adjectives`, ...) to that table's word-to-row map.

Keying every table by the word models the `word TEXT UNIQUE` column, so a table cannot hold a word twice. The external collaborators are function parameters:

- the linguistic analyser, a word to its text, lemma, pos and entity type;
- the IPA function;
- the two definition fetchers;
- the similarity score, an integer.

The modules are:

- `Wrappers` holds the optional value used for SQL NULL, a missing key, or a fetch that found nothing.
- `Text` covers `preprocess_input` (ASCII lower-case, then `str.title`, then deleting `string.punctuation`) and the table name `pos.lower() + "s"`.
- `Definitions` covers Python truthiness of optional strings and the `x or y` precedence between the provided definition, web source 1 and web source 2 (`get_definitions_concurrently`).
- `Sources` covers the merge of the JSON word files.
- `Store` holds the class `WordStore`. Its methods are the statements of `insert_word`, `insert_word_async`, `insert_or_update_word` and its async twin, the backfill loop of `add_other_json_files`, and `check_for_updates`, both as written and corrected. Each method is specified by a pure function of the old state (`Upserted`, `Backfilled`, `Registered`), and the properties are proved about those functions.
- `Session` covers the argmax of `generate_response` and the staging merge of `handle_unknown_word`.
- `Scenarios` runs `check_for_updates` twice in a row, as written and corrected.

The errors below are modelled as outcomes, not excluded by preconditions. The other errors the source can raise are listed under "## Left out".

- KeyError on a missing `word` or `pos` key is `MissingKey`.
- The UNIQUE violation of an INSERT is `Duplicate(table)`.

Where the code does something a reader may not expect, the model follows the code:

- **Source metadata is discarded.** The merge overwrites every merged word's entry with the analyser record (lines 81-90), so a definition or pos given in a source file does not survive it. As a result the `"ADJECTIVE"` default of `check_for_updates` cannot be reached from merged data. It is reached through `insert_word`'s own default `pos="ADJECTIVE"` (line 166), as in the call at line 214; `Store.WordStore.InsertWord` has the same default.
- **Backfill has no first-write-wins guard.** It overwrites a stored non-null definition whenever the fetched one is truthy (lines 399-403).
- **One existence check.** `word_exists_in_database` has three definitions (lines 242, 290, 474). All three ask whether the word is in `words`, and the model tests `word in words`.

Where the code departs from what it evidently intends, the model takes the intended reading:

- **Definitions are paired per word.** `zip(words, results)` pairs words with a flat list of 2n results (line 347). The model pairs each word with its own two answers, which is what the tuple unpacking intends.
- **Web source 1's result is taken by its definition string.** `website1(word) or website2(word)` (line 311) tests a tuple, which is always truthy. The model lets the definition string take part in the `or`, and an absent answer falls through.
- **Database handles are implicit.** The sync functions use the global `cursor = None`, and `get_existing_words_from_database` is called without a connection. The model gives every step the store itself.
- **The part of speech is awaited.** The sync `insert_or_update_word` calls the coroutine `get_part_of_speech` without `await` (line 298), so line 299 would call `.lower()` on a coroutine. `Store.WordStore.InsertOrUpdateWord` uses the part of speech the call evidently means.
- **The backfill runs.** As written, the tail of `add_other_json_files` never writes anything. `process_file` is called with four arguments but takes two (lines 390, 351), and it appends to a function object instead of `words_to_insert` (line 362), so that list stays empty. `Store.WordStore.BackfillDefinitions` models the tail's intended logic on a given list of pending words.

## Model

| member | source | states |
|---|---|---|
| Text.Lower | database_utils.py:231 | `lower()` keeps the length and maps every character through ASCII lower-casing |
| Text.StripPunctuation | database_utils.py:229-232 | deleting `string.punctuation` leaves no punctuation, never lengthens the string, and changes nothing when there was none |
| Text.StripPunctuationAppend | database_utils.py:229-232 | deleting punctuation distributes over concatenation |
| Text.Preprocess | database_utils.py:228-232 | the normalised input contains no punctuation and is no longer than the input |
| Text.TitleFrom | database_utils.py:231 | `str.title` from a given point: same length, and each letter is upper-cased when the character before it is not cased and lower-cased when it is; other characters are kept |
| Text.Title | database_utils.py:231 | `title()` keeps the length; a letter is upper-cased when it starts the string or follows an uncased character, lower-cased otherwise |
| Text.TitleIgnoresCase | database_utils.py:231 | `title()` after `lower()` equals `title()` alone: title-casing fixes the case of every letter |
| Text.PreprocessIgnoresCase | database_utils.py:228-232 | inputs that agree up to case normalise to the same string, which is the title-cased input without punctuation |
| Text.TableName | database_utils.py:167 | the table name is the lower-cased category followed by `s`, one character longer, with no upper-case letter |
| Text.SameTableIffSameLowered | database_utils.py:167 | two categories share a table if and only if they agree up to case |
| Text.DefaultCategoryTable | database_utils.py:161-167 | the default category's table name is `adjectives`, so a word without pos goes there |
| Definitions.OrElse | database_utils.py:348 | `x or y` yields `x` when truthy, else `y`, and is truthy iff one of them is |
| Definitions.DefinitionOfA | database_utils.py:452-459 | web source 1 contributes its definition string, and nothing when it found nothing |
| Definitions.Resolve | database_utils.py:309-311 | the provided definition when truthy, else web source 1's when truthy, else web source 2's; truthy iff one of the three is |
| Definitions.ResolveIgnoresLaterSources | database_utils.py:309-311 | web source 1 and 2 do not matter once the provided definition is truthy, and web source 2 does not matter once web source 1's is |
| Definitions.Combine | database_utils.py:348 | `def1 or def2`: web source 1's definition when truthy, otherwise web source 2's |
| Definitions.CombineDefinitions | database_utils.py:338-349 | one entry per requested word, each the combination of that word's two answers |
| Sources.AnalyserRecord | database_utils.py:84-89 | the analyser record has word, lemma, pos and entity type set from the analysis, and no ipa or definition |
| Sources.CategoryOf | database_utils.py:161 | `get("pos", "ADJECTIVE")`: the stored pos, or `ADJECTIVE` when there is none |
| Sources.ListWords | database_utils.py:73-76 | the words of a list file include the keys of every dictionary of the list |
| Sources.SourceWords | database_utils.py:64-79 | the merged word set includes the words of every file in the listing |
| Sources.ListWordsMembership | database_utils.py:73-76 | a word is among a list file's words iff some dictionary of the list has it as a key |
| Sources.SourceWordsMembership | database_utils.py:64-79 | a word is a source word iff some decodable `.json` file contributes it |
| Sources.MergeSources | database_utils.py:61-91 | the word set is the union of the keys of every dictionary of every decodable `.json` file; the merged map has exactly those keys, each with the analyser record |
| Store.AddIfAbsent | database_utils.py:280-288 | after the guarded insert the word is in its table; a word already there leaves all tables unchanged; an absent word gets the new row |
| Store.AddIfAbsentEffect | database_utils.py:280-288 | the guarded insert leaves the word in its table exactly once, keeps an existing row for it, and changes no other table or row |
| Store.PartOfSpeech | database_utils.py:50-59 | the stored pos when the word has a row, else the analyser's |
| Store.Upserted | database_utils.py:306-320 | a settled definition blocks every change; otherwise only the word's definition column changes, or one new row is added; every other row is kept |
| Store.UpsertIdempotent | database_utils.py:306-320 | repeating an upsert with the same resolved definition changes nothing more |
| Store.UpsertsCommute | database_utils.py:313-320 | upserts of two different words commute |
| Store.Backfilled | database_utils.py:398-403 | the backfill sets the definition of each stored word with a truthy fetched definition and leaves every other row and the key set as they were |
| Store.BackfillProperties | database_utils.py:399-403 | after backfill each definition is unchanged or truthy, and backfilling twice equals backfilling once |
| Store.BackfillPrefersWebsite1 | database_utils.py:348 | when web source 1 has a definition for a backfilled word, that definition is stored, whatever web source 2 says |
| Store.Registered | database_utils.py:159-162 | the tables after a set of words has gone through the guarded insert; its contract gives the table names, the old ones plus the category table of each word, and `Store.RegisteredMembership` and `Store.RegisteredRow` give what each table then holds |
| Store.RegisteredNothing | database_utils.py:157-162 | inserting no words leaves every table as it was |
| Store.RegisteredMembership | database_utils.py:157-162 | after the insert loop a word is in a table iff it was there before or is a word to insert whose category table it is |
| Store.RegisteredRow | database_utils.py:159-162 | after the insert loop a word keeps the row it had in a table, and a new word has the row the loop inserts: its lemma, its ipa and a NULL definition |
| Store.WordStore.InsertWord | database_utils.py:166-185 | creates the category table if needed and adds the word with a NULL definition; a word already there is a UNIQUE violation that changes nothing; `words` is untouched; the category defaults to `ADJECTIVE` |
| Store.WordStore.Register | database_utils.py:254-288 | a word already in `words` is a UNIQUE violation; otherwise it gets one `words` row and is added to its category table only if absent |
| Store.WordStore.InsertWordAsync | database_utils.py:248-288 | a missing `word` or `pos` key is a KeyError that changes nothing; the lemma defaults to the word; then the word is registered |
| Store.WordStore.InsertOrUpdateWord | database_utils.py:296-321 | a missing `word` key is a KeyError; otherwise the `words` table becomes the upsert with the resolved definition and the word's part of speech; category tables are untouched |
| Store.WordStore.InsertOrUpdateWordAsync | database_utils.py:406-429 | the same upsert with only the provided definition, nothing fetched |
| Store.WordStore.Backfill | database_utils.py:398-403 | the per-word UPDATE loop yields the backfilled table |
| Store.WordStore.BackfillDefinitions | database_utils.py:395-404 | the stored words become the backfill of the combined definitions of the pending words, and nothing happens when there are none |
| Store.WordStore.InsertNextAsWritten | database_utils.py:160-162 | one `insert_word` call of the loop: it succeeds iff the word was not already in its category table, and then the tables gain it; otherwise it is a UNIQUE violation in that table and nothing changes |
| Store.WordStore.InsertEachAsWritten | database_utils.py:159-162 | the `insert_word` loop succeeds iff no word to insert is already in its category table, and then the tables are those with every word registered; otherwise it reports a UNIQUE violation in the table of some such word, and the tables are those with a proper subset of the words registered, the inserts before the failing one; `words` never changes |
| Store.WordStore.CheckForUpdatesAsWritten | database_utils.py:153-164 | the words to insert are the source words minus the stored words, with the outcome and tables of the `insert_word` loop, including the inserts made before a UNIQUE violation |
| Store.WordStore.RegisterNext | database_utils.py:160-162 | one pass of the corrected loop adds the word's `words` row and its category row on top of the words already done |
| Store.WordStore.RegisterEach | database_utils.py:159-162 | every word to insert gets its `words` row and its category row, and nothing else changes |
| Store.WordStore.CheckForUpdates | database_utils.py:153-164 | corrected: every source word not yet stored is registered in `words` and in its category table, after which every source word is stored; when all were stored already nothing changes |
| Session.FirstMaxUnique | database_utils.py:136-138 | the strict-`>` argmax picks at most one position |
| Session.MostSimilar | database_utils.py:129-138 | the chosen word scores above 0, strictly above every earlier word and at least as high as every later one; there is none iff no word scores above 0 |
| Session.Shown | database_utils.py:141-142 | the f-string shows the definition's text, or `None` |
| Session.GenerateResponse | database_utils.py:126-144 | "word: definition" for the first best-scoring word; no answer when no word scores above 0 or the best word is empty |
| Session.StagedEntry | database_utils.py:190-195 | the staged entry has the word as its own lemma, the user's definition and the word's ipa |
| Session.Stage | database_utils.py:198-206 | staging a word sets exactly its entry and keeps every other staged entry; a missing or undecodable staging file counts as empty |
| Session.StageIdempotent | database_utils.py:206 | staging the same word twice with the same answer equals staging it once |
| Session.StagesCommute | database_utils.py:206 | staging two different words gives the same dictionary in either order |
| Scenarios.CheckTwiceAsWritten | database_utils.py:153-185 | as written, a first run that inserts some word makes the second run on the same sources fail with a UNIQUE violation |
| Scenarios.SecondRunAsWritten | database_utils.py:153-185 | as written, on an empty store with one source word analysed as a verb, the first run succeeds and the second fails on table `verbs` |
| Scenarios.CheckTwice | database_utils.py:153-164 | corrected, both runs succeed and two runs leave the store as one run does |
| Scenarios.InsertUnknownWord | database_utils.py:214 | `insert_word(word, lemma, ipa)` without a category, on an empty store, succeeds and leaves exactly the table `adjectives` holding the word with a NULL definition |
| Scenarios.VerbTable | database_utils.py:167 | helper for the scenario: the category `VERB` has the table `verbs` |

## Left out

- SQLite mechanics are not modelled: connections, cursors, transactions, `commit`, the DDL at start-up and the seeding of `parts_of_speech` (lines 17-48). The store is two maps.
- Concurrency is not modelled: asyncio and aiohttp tasks and `gather`. Each fetch and each upsert is one sequential step.
- `process_file` and `add_new_words_to_database` are not modelled. They are drivers that read files and call the modelled upserts. `process_file` also appends to a function object (line 362), which raises at run time.
- The first part of `add_other_json_files` is not modelled: listing files and gathering tasks. Only its backfill tail is, in its intended form, because as written that tail never runs (see above).
- HTTP requests and HTML scraping inside the two fetchers are not modelled. Each fetcher is a function parameter that returns an optional value.
- spaCy is not modelled: the analyser, tokenisation and similarity. pyphen's `get_ipa` is a function parameter.
- Similarity is an integer score, not a float.
- File and console I/O are not modelled: `os.listdir`, `json.load`/`json.dump`, `input`/`print`, `get_user_input`, `print_response`, `write_new_words_to_json`. The directory listing is a sequence of files, each already decoded or marked malformed.
- `main.py`, `language_data_to_sqlite.py` and `modules/nlp_utils.py` are not part of this model.
- Case mapping is ASCII only: non-ASCII letters are treated as uncased by `lower()` and `title()`.
- Store.WordStore.InsertOrUpdateWord: a network or HTTP error in web source 2 is not an outcome. `get_definition_website2` calls `requests.get` and `raise_for_status` outside its `try` (lines 463-464), so such an error aborts the upsert before any write. The model reads every failure of web source 2 as None, and then stores that value like any other.
- Sources.MergeSources: an empty word key is not an error in the model. There `nlp(word)[0]` raises IndexError (lines 82-83), and so does `get_part_of_speech` for an unstored empty word (lines 58-59). The analyser is a total function here.
- Sources.MergeSources: a decoded file that is neither a dictionary nor a list of dictionaries makes `update` raise (lines 75, 78). `Sources.Json` has no value for such a file.
- `Sources.WordData` uses one optional per key, so a missing key and a JSON null are the same value. `get("lemma", word)` therefore also defaults a null lemma to the word.
- `Session.Stage` only models the dictionary merge of `handle_unknown_word`. Three things are left out:
  - a staging file whose top level is a list, which would raise there;
  - writing the file;
  - the follow-up `insert_word` and `check_for_updates` calls, which are the modelled `Store.WordStore.InsertWord` and `Store.WordStore.CheckForUpdatesAsWritten`.
- `Session.GenerateResponse` takes the words of its `word_data` dictionary in dictionary order, as a sequence that lists every key of the map. The one call that passes data is `main.py:48`, and it passes the merged source records of `get_new_words_from_json` (`main.py:43-45`), not database rows. Those records are analyser records with no `definition` (lines 84-89), so every answer from that call reads `word: None`. The call in `handle_user_input` passes no dictionary at all (line 220).

## Findings

| source | as written | input that shows it | evidently intended | confidence | as-written member | corrected member |
|---|---|---|---|---|---|---|
| database_utils.py:153-185 | `check_for_updates` picks the source words missing from `words`, but `insert_word` writes only the category table, so the inserted words stay missing from `words` | an empty store and one file `words.json` holding `run`, analysed as a verb: the first run inserts `run` into `verbs`, and the second run tries `run` again and violates UNIQUE in `verbs` | each inserted word is also registered in `words`, as `insert_word_async` does, so a second run on unchanged sources inserts nothing | not executed | Scenarios.SecondRunAsWritten | Store.WordStore.CheckForUpdates |
