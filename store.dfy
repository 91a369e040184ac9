/**
 * The word store: the shared `words` table and one table per part of speech, kept
 * in memory as maps keyed by the word (the column `word TEXT UNIQUE`, so a table
 * holds each word at most once). The methods of WordStore are the statements the
 * source runs against the database; each is specified by a pure function of the
 * old state, about which the properties are proved.
 */
module Store {
  import opened Wrappers
  import Text
  import Definitions
  import Sources

  /** A row of `words`: lemma, ipa, pos and definition (the word is the key). */
  datatype Row = Row(baseForm: Option<string>, ipa: Option<string>, pos: string, definition: Option<string>)

  /** A row of a category table: lemma, ipa and definition. */
  datatype CategoryRow = CategoryRow(baseForm: Option<string>, ipa: Option<string>, definition: Option<string>)

  type Index = map<string, Row>
  type Tables = map<string, map<string, CategoryRow>>

  /** How a step ended: normally, on a KeyError for `key`, or on a UNIQUE violation in `table`. */
  datatype Outcome = Done | MissingKey(key: string) | Duplicate(table: string)

  function TableOrEmpty(tables: Tables, t: string): map<string, CategoryRow> {
    if t in tables then tables[t] else map[]
  }

  /** `CREATE TABLE IF NOT EXISTS t`. */
  function EnsureTable(tables: Tables, t: string): Tables {
    if t in tables then tables else tables[t := map[]]
  }

  /** The guarded insert into a category table: the row goes in only when the word is absent. */
  function AddIfAbsent(tables: Tables, t: string, w: string, row: CategoryRow): (r: Tables)
    ensures t in r && w in r[t]
    ensures w in TableOrEmpty(tables, t) ==> r == tables
    ensures w !in TableOrEmpty(tables, t) ==> r[t][w] == row
  {
    var table := TableOrEmpty(tables, t);
    tables[t := if w in table then table else table[w := row]]
  }

  /**
   * The guarded insert creates the table if needed, holds the word afterwards, keeps
   * an existing row for it untouched, and changes no other table and no other row.
   */
  lemma AddIfAbsentEffect(tables: Tables, t: string, w: string, row: CategoryRow)
    ensures var r := AddIfAbsent(tables, t, w, row);
      && r.Keys == tables.Keys + {t}
      && (forall u :: u in tables && u != t ==> r[u] == tables[u])
      && r[t].Keys == TableOrEmpty(tables, t).Keys + {w}
      && (forall v :: v in TableOrEmpty(tables, t) ==> r[t][v] == TableOrEmpty(tables, t)[v])
      && (w !in TableOrEmpty(tables, t) ==> r[t][w] == row)
      && (w in TableOrEmpty(tables, t) ==> r == EnsureTable(tables, t) == tables)
  {
  }

  /** `get_part_of_speech`: the stored pos when the word has a row, else the analyser's. */
  function PartOfSpeech(words: Index, w: string, analyse: string -> Sources.Analysis): (r: string)
    ensures w in words ==> r == words[w].pos
    ensures w !in words ==> r == analyse(w).pos
  {
    if w in words then words[w].pos else analyse(w).pos
  }

  /** True when the stored definition of `w` is non-null: first write wins, nothing may change. */
  predicate Settled(words: Index, w: string) {
    w in words && words[w].definition.Some?
  }

  /**
   * The `words` table after one `insert_or_update_word` of `w` whose definition
   * resolves to `d`: unchanged when settled; otherwise the definition column of an
   * existing row is set, or one new row is added.
   */
  function Upserted(words: Index, w: string, baseForm: Option<string>, ipa: Option<string>, pos: string, d: Option<string>): (r: Index)
    ensures Settled(words, w) ==> r == words
    ensures r.Keys == words.Keys + {w}
    ensures forall v :: v in words && v != w ==> r[v] == words[v]
    ensures w in words && !Settled(words, w) ==>
      r[w] == Row(words[w].baseForm, words[w].ipa, words[w].pos, d)
    ensures w !in words ==> r[w] == Row(baseForm, ipa, pos, d)
  {
    if Settled(words, w) then words
    else if w in words then words[w := words[w].(definition := d)]
    else words[w := Row(baseForm, ipa, pos, d)]
  }

  /** Repeating an upsert with the same resolved definition changes nothing more. */
  lemma UpsertIdempotent(words: Index, w: string, baseForm: Option<string>, ipa: Option<string>, pos: string, d: Option<string>,
                         baseForm2: Option<string>, ipa2: Option<string>, pos2: string)
    ensures Upserted(Upserted(words, w, baseForm, ipa, pos, d), w, baseForm2, ipa2, pos2, d)
         == Upserted(words, w, baseForm, ipa, pos, d)
  {
  }

  /** Upserts of two different words commute, so their order across words does not matter. */
  lemma UpsertsCommute(words: Index,
                       w1: string, b1: Option<string>, i1: Option<string>, p1: string, d1: Option<string>,
                       w2: string, b2: Option<string>, i2: Option<string>, p2: string, d2: Option<string>)
    requires w1 != w2
    ensures Upserted(Upserted(words, w1, b1, i1, p1, d1), w2, b2, i2, p2, d2)
         == Upserted(Upserted(words, w2, b2, i2, p2, d2), w1, b1, i1, p1, d1)
  {
    var left := Upserted(Upserted(words, w1, b1, i1, p1, d1), w2, b2, i2, p2, d2);
    var right := Upserted(Upserted(words, w2, b2, i2, p2, d2), w1, b1, i1, p1, d1);
    assert left.Keys == right.Keys;
    forall v | v in left
      ensures left[v] == right[v]
    {
    }
  }

  /**
   * The `words` table after the backfill loop of `add_other_json_files`: each
   * stored word whose fetched definition is truthy gets it; no other row changes
   * (an UPDATE of an absent word does nothing).
   */
  function Backfilled(words: Index, definitions: map<string, Option<string>>): (r: Index)
    ensures r.Keys == words.Keys
    ensures forall w :: w in words && w in definitions && Definitions.Truthy(definitions[w]) ==>
      r[w] == words[w].(definition := definitions[w])
    ensures forall w :: w in words && !(w in definitions && Definitions.Truthy(definitions[w])) ==>
      r[w] == words[w]
  {
    map w | w in words ::
      if w in definitions && Definitions.Truthy(definitions[w]) then words[w].(definition := definitions[w]) else words[w]
  }

  /** Backfill writes only definitions that are truthy, and running it twice is running it once. */
  lemma BackfillProperties(words: Index, definitions: map<string, Option<string>>)
    ensures forall w :: w in words ==>
      Backfilled(words, definitions)[w].definition == words[w].definition ||
      Definitions.Truthy(Backfilled(words, definitions)[w].definition)
    ensures Backfilled(Backfilled(words, definitions), definitions) == Backfilled(words, definitions)
  {
  }

  /**
   * When web source 1 has a definition for a stored word that is being backfilled,
   * that definition is what ends up stored, whatever web source 2 says.
   */
  lemma BackfillPrefersWebsite1(words: Index, pending: seq<string>, fetchA: string -> Definitions.FetchA,
                                fetchB: string -> Option<string>, w: string)
    requires w in words && w in pending
    requires Definitions.Truthy(Definitions.DefinitionOfA(fetchA(w)))
    ensures Backfilled(words, CombinedDefinitions(pending, fetchA, fetchB))[w].definition
         == Definitions.DefinitionOfA(fetchA(w))
  {
  }

  /** What `get_definitions_concurrently` returns, as a value. */
  function CombinedDefinitions(pending: seq<string>, fetchA: string -> Definitions.FetchA, fetchB: string -> Option<string>)
    : map<string, Option<string>>
  {
    map w | w in pending :: Definitions.Combine(fetchA(w), fetchB(w))
  }

  /** The category table a merged word goes to; its entry holds the analyser's pos. */
  function TableFor(w: string, analyse: string -> Sources.Analysis): string {
    Text.TableName(analyse(w).pos)
  }

  /** The category row `check_for_updates` inserts for a merged word: lemma, ipa, NULL definition. */
  function CategoryRowFor(w: string, analyse: string -> Sources.Analysis, ipaOf: string -> Option<string>): CategoryRow {
    CategoryRow(Some(analyse(w).baseForm), ipaOf(w), None)
  }

  /** The `words` rows the corrected `check_for_updates` adds for the words in `s`. */
  function IndexRows(s: set<string>, analyse: string -> Sources.Analysis, ipaOf: string -> Option<string>): Index {
    map w | w in s :: Row(Some(analyse(w).baseForm), ipaOf(w), analyse(w).pos, None)
  }

  function TablesOf(s: set<string>, analyse: string -> Sources.Analysis): set<string> {
    set w | w in s :: TableFor(w, analyse)
  }

  function NewRows(s: set<string>, t: string, analyse: string -> Sources.Analysis, ipaOf: string -> Option<string>)
    : map<string, CategoryRow>
  {
    map w | w in s && TableFor(w, analyse) == t :: CategoryRowFor(w, analyse, ipaOf)
  }

  /**
   * The category tables after each word of `s` has been inserted into its table
   * with the guard: every table gets the new words that belong to it, and a row
   * already there is kept.
   */
  function Registered(tables: Tables, s: set<string>, analyse: string -> Sources.Analysis, ipaOf: string -> Option<string>)
    : (r: Tables)
    ensures r.Keys == tables.Keys + TablesOf(s, analyse)
  {
    map t | t in tables.Keys + TablesOf(s, analyse) :: NewRows(s, t, analyse, ipaOf) + TableOrEmpty(tables, t)
  }

  lemma RegisteredNothing(tables: Tables, analyse: string -> Sources.Analysis, ipaOf: string -> Option<string>)
    ensures Registered(tables, {}, analyse, ipaOf) == tables
  {
    assert TablesOf({}, analyse) == {};
    forall t | t in tables
      ensures Registered(tables, {}, analyse, ipaOf)[t] == tables[t]
    {
      assert NewRows({}, t, analyse, ipaOf) == map[];
    }
  }

  /** A word sits in a table after registering `s` iff it was there before or is a word of `s` that belongs there. */
  lemma RegisteredMembership(tables: Tables, s: set<string>, analyse: string -> Sources.Analysis,
                             ipaOf: string -> Option<string>, w: string, t: string)
    ensures w in TableOrEmpty(Registered(tables, s, analyse, ipaOf), t)
        <==> w in TableOrEmpty(tables, t) || (w in s && TableFor(w, analyse) == t)
  {
  }

  /** The table `t` after registering `s`: its new words, then its old rows on top. */
  lemma RegisteredTable(tables: Tables, s: set<string>, analyse: string -> Sources.Analysis,
                        ipaOf: string -> Option<string>, t: string)
    ensures TableOrEmpty(Registered(tables, s, analyse, ipaOf), t) == NewRows(s, t, analyse, ipaOf) + TableOrEmpty(tables, t)
  {
  }

  lemma NewRowsStep(done: set<string>, w: string, t: string, analyse: string -> Sources.Analysis,
                    ipaOf: string -> Option<string>)
    ensures NewRows(done + {w}, t, analyse, ipaOf) ==
      if TableFor(w, analyse) == t then NewRows(done, t, analyse, ipaOf)[w := CategoryRowFor(w, analyse, ipaOf)]
      else NewRows(done, t, analyse, ipaOf)
  {
  }

  /** Adding a key under a right-biased union: hidden when the right side has it, visible otherwise. */
  lemma OverrideUpdate<K, V>(a: map<K, V>, b: map<K, V>, k: K, v: V)
    ensures k in b ==> a[k := v] + b == a + b
    ensures k !in b ==> (a + b)[k := v] == a[k := v] + b
    ensures a + b[k := v] == (a + b)[k := v]
  {
  }

  lemma IndexRowsStep(s: set<string>, w: string, analyse: string -> Sources.Analysis, ipaOf: string -> Option<string>)
    ensures IndexRows(s + {w}, analyse, ipaOf)
         == IndexRows(s, analyse, ipaOf)[w := Row(Some(analyse(w).baseForm), ipaOf(w), analyse(w).pos, None)]
  {
  }

  /**
   * The row a word has in a table after the insert loop: the row it had there
   * before, or, for a new word of `s`, the row the loop inserts.
   */
  lemma RegisteredRow(tables: Tables, s: set<string>, analyse: string -> Sources.Analysis,
                      ipaOf: string -> Option<string>, w: string, t: string)
    requires w in TableOrEmpty(Registered(tables, s, analyse, ipaOf), t)
    ensures w in TableOrEmpty(tables, t) ==>
      TableOrEmpty(Registered(tables, s, analyse, ipaOf), t)[w] == TableOrEmpty(tables, t)[w]
    ensures w !in TableOrEmpty(tables, t) ==>
      && w in s && TableFor(w, analyse) == t
      && TableOrEmpty(Registered(tables, s, analyse, ipaOf), t)[w] == CategoryRowFor(w, analyse, ipaOf)
  {
    RegisteredTable(tables, s, analyse, ipaOf, t);
  }

  lemma TablesOfStep(s: set<string>, w: string, analyse: string -> Sources.Analysis)
    ensures TablesOf(s + {w}, analyse) == TablesOf(s, analyse) + {TableFor(w, analyse)}
  {
  }

  /** Registering one more word, seen in one table. */
  lemma RegisterStepAt(tables: Tables, done: set<string>, w: string, t: string,
                       analyse: string -> Sources.Analysis, ipaOf: string -> Option<string>)
    requires w !in done
    ensures TableOrEmpty(AddIfAbsent(Registered(tables, done, analyse, ipaOf), TableFor(w, analyse), w, CategoryRowFor(w, analyse, ipaOf)), t)
         == TableOrEmpty(Registered(tables, done + {w}, analyse, ipaOf), t)
  {
    var t0 := TableFor(w, analyse);
    var row := CategoryRowFor(w, analyse, ipaOf);
    var before := Registered(tables, done, analyse, ipaOf);
    RegisteredTable(tables, done, analyse, ipaOf, t);
    RegisteredTable(tables, done + {w}, analyse, ipaOf, t);
    NewRowsStep(done, w, t, analyse, ipaOf);
    var added := NewRows(done, t, analyse, ipaOf);
    var old_t := TableOrEmpty(tables, t);
    if t == t0 {
      assert w !in added;
      OverrideUpdate(added, old_t, w, row);
    } else {
      assert TableOrEmpty(AddIfAbsent(before, t0, w, row), t) == TableOrEmpty(before, t);
    }
  }

  lemma MapsEqual<K, V>(a: map<K, V>, b: map<K, V>)
    requires a.Keys == b.Keys
    requires forall k :: k in a ==> a[k] == b[k]
    ensures a == b
  {
  }

  /** Registering one more word is one guarded insert. */
  lemma RegisterStep(tables: Tables, done: set<string>, w: string,
                     analyse: string -> Sources.Analysis, ipaOf: string -> Option<string>)
    requires w !in done
    ensures AddIfAbsent(Registered(tables, done, analyse, ipaOf), TableFor(w, analyse), w, CategoryRowFor(w, analyse, ipaOf))
         == Registered(tables, done + {w}, analyse, ipaOf)
  {
    var before := Registered(tables, done, analyse, ipaOf);
    var stepped := AddIfAbsent(before, TableFor(w, analyse), w, CategoryRowFor(w, analyse, ipaOf));
    var after := Registered(tables, done + {w}, analyse, ipaOf);
    assert stepped.Keys == after.Keys by {
      TablesOfStep(done, w, analyse);
    }
    forall t | t in stepped
      ensures stepped[t] == after[t]
    {
      RegisterStepAt(tables, done, w, t, analyse, ipaOf);
      assert stepped[t] == TableOrEmpty(stepped, t);
      assert after[t] == TableOrEmpty(after, t);
    }
    MapsEqual(stepped, after);
  }

  class WordStore {
    /** The shared `words` table. */
    var words: Index
    /** The category tables, by table name. */
    var tables: Tables

    /** An empty store. */
    constructor ()
      ensures words == map[] && tables == map[]
    {
      words := map[];
      tables := map[];
    }

    /**
     * `insert_word`: create the category table if needed and insert the word with a
     * NULL definition; a word already in that table violates UNIQUE. The shared
     * `words` table is not touched. The category defaults to `ADJECTIVE`.
     */
    method InsertWord(word: string, baseForm: Option<string>, ipa: Option<string>, pos: string := Text.DefaultCategory) returns (outcome: Outcome)
      modifies this
      ensures words == old(words)
      ensures outcome == if word in TableOrEmpty(old(tables), Text.TableName(pos)) then Duplicate(Text.TableName(pos)) else Done
      ensures tables == AddIfAbsent(old(tables), Text.TableName(pos), word, CategoryRow(baseForm, ipa, None))
    {
      var t := Text.TableName(pos);
      tables := EnsureTable(tables, t);
      if word in tables[t] {
        outcome := Duplicate(t);
        return;
      }
      tables := tables[t := tables[t][word := CategoryRow(baseForm, ipa, None)]];
      outcome := Done;
    }

    /**
     * The statements of `insert_word_async` after its keys are read: create the
     * category table, insert into `words` (UNIQUE there), then insert into the
     * category table only if the word is absent from it.
     */
    method Register(word: string, baseForm: Option<string>, ipa: Option<string>, pos: string) returns (outcome: Outcome)
      modifies this
      ensures word in old(words) ==>
        outcome == Duplicate("words") && words == old(words) && tables == EnsureTable(old(tables), Text.TableName(pos))
      ensures word !in old(words) ==>
        && outcome == Done
        && words == old(words)[word := Row(baseForm, ipa, pos, None)]
        && tables == AddIfAbsent(old(tables), Text.TableName(pos), word, CategoryRow(baseForm, ipa, None))
    {
      var t := Text.TableName(pos);
      tables := EnsureTable(tables, t);
      if word in words {
        outcome := Duplicate("words");
        return;
      }
      words := words[word := Row(baseForm, ipa, pos, None)];
      if word !in tables[t] {
        tables := tables[t := tables[t][word := CategoryRow(baseForm, ipa, None)]];
      }
      outcome := Done;
    }

    /**
     * `insert_word_async`: reads `word` and `pos` from the dictionary (KeyError when
     * missing) and `lemma` with the word itself as default, then registers the word.
     */
    method InsertWordAsync(data: Sources.WordData, ipaOf: string -> Option<string>) returns (outcome: Outcome)
      modifies this
      ensures data.word.None? ==> outcome == MissingKey("word") && words == old(words) && tables == old(tables)
      ensures data.word.Some? && data.pos.None? ==>
        outcome == MissingKey("pos") && words == old(words) && tables == old(tables)
      ensures data.word.Some? && data.pos.Some? ==>
        var word, baseForm, t := data.word.value, Some(data.baseForm.GetOr(data.word.value)), Text.TableName(data.pos.value);
        var row := CategoryRow(baseForm, ipaOf(word), None);
        if word in old(words) then
          outcome == Duplicate("words") && words == old(words) && tables == EnsureTable(old(tables), t)
        else
          && outcome == Done
          && words == old(words)[word := Row(baseForm, ipaOf(word), data.pos.value, None)]
          && tables == AddIfAbsent(old(tables), t, word, row)
    {
      if data.word.None? {
        return MissingKey("word");
      }
      var word := data.word.value;
      var baseForm := Some(data.baseForm.GetOr(word));
      var ipa := ipaOf(word);
      if data.pos.None? {
        return MissingKey("pos");
      }
      outcome := Register(word, baseForm, ipa, data.pos.value);
    }

    /**
     * `insert_or_update_word`: unless the stored definition is non-null, resolve the
     * definition (provided, then web source 1, then web source 2) and update the
     * existing row's definition or insert one new row. Category tables are untouched.
     */
    method InsertOrUpdateWord(data: Sources.WordData, analyse: string -> Sources.Analysis,
                              fetchA: string -> Definitions.FetchA, fetchB: string -> Option<string>,
                              ipaOf: string -> Option<string>)
      returns (outcome: Outcome)
      modifies this
      ensures tables == old(tables)
      ensures data.word.None? ==> outcome == MissingKey("word") && words == old(words)
      ensures data.word.Some? ==>
        var word := data.word.value;
        && outcome == Done
        && words == Upserted(old(words), word, data.baseForm, ipaOf(word), PartOfSpeech(old(words), word, analyse),
                             Definitions.Resolve(data.definition, fetchA(word), fetchB(word)))
    {
      if data.word.None? {
        return MissingKey("word");
      }
      var word := data.word.value;
      var pos := PartOfSpeech(words, word, analyse);
      if !Settled(words, word) {
        var definition := Definitions.Resolve(data.definition, fetchA(word), fetchB(word));
        if word in words {
          words := words[word := words[word].(definition := definition)];
        } else {
          words := words[word := Row(data.baseForm, ipaOf(word), pos, definition)];
        }
      }
      outcome := Done;
    }

    /** `insert_or_update_word_async`: the same upsert, with only the provided definition and no fetching. */
    method InsertOrUpdateWordAsync(data: Sources.WordData, analyse: string -> Sources.Analysis,
                                   ipaOf: string -> Option<string>)
      returns (outcome: Outcome)
      modifies this
      ensures tables == old(tables)
      ensures data.word.None? ==> outcome == MissingKey("word") && words == old(words)
      ensures data.word.Some? ==>
        var word := data.word.value;
        && outcome == Done
        && words == Upserted(old(words), word, data.baseForm, ipaOf(word), PartOfSpeech(old(words), word, analyse),
                             data.definition)
    {
      if data.word.None? {
        return MissingKey("word");
      }
      var word := data.word.value;
      var pos := PartOfSpeech(words, word, analyse);
      if !Settled(words, word) {
        var definition := data.definition;
        if word in words {
          words := words[word := words[word].(definition := definition)];
        } else {
          words := words[word := Row(data.baseForm, ipaOf(word), pos, definition)];
        }
      }
      outcome := Done;
    }

    /** The backfill loop of `add_other_json_files`: one UPDATE per truthy definition. */
    method Backfill(definitions: map<string, Option<string>>)
      modifies this
      ensures words == Backfilled(old(words), definitions)
      ensures tables == old(tables)
    {
      var pending := definitions.Keys;
      while pending != {}
        invariant pending <= definitions.Keys
        invariant tables == old(tables)
        invariant words.Keys == old(words).Keys
        invariant forall w :: w in words && w !in pending ==> words[w] == Backfilled(old(words), definitions)[w]
        invariant forall w :: w in words && w in pending ==> words[w] == old(words)[w]
        decreases pending
      {
        var word :| word in pending;
        var definition := definitions[word];
        if Definitions.Truthy(definition) && word in words {
          words := words[word := words[word].(definition := definition)];
        }
        pending := pending - {word};
      }
    }

    /**
     * The tail of `add_other_json_files`: when there are words awaiting a
     * definition, ask both web sources about each and write back the truthy results.
     */
    method BackfillDefinitions(pending: seq<string>, fetchA: string -> Definitions.FetchA, fetchB: string -> Option<string>)
      modifies this
      ensures words == Backfilled(old(words), CombinedDefinitions(pending, fetchA, fetchB))
      ensures tables == old(tables)
    {
      if |pending| > 0 {
        var definitions := Definitions.CombineDefinitions(pending, fetchA, fetchB);
        assert definitions == CombinedDefinitions(pending, fetchA, fetchB);
        Backfill(definitions);
      } else {
        assert CombinedDefinitions(pending, fetchA, fetchB) == map[];
      }
    }

    /** One pass of the loop as written: `insert_word` of `word` after the words already done. */
    method InsertNextAsWritten(word: string, wordData: Sources.WordData, analyse: string -> Sources.Analysis,
                               ipaOf: string -> Option<string>, ghost tables0: Tables, ghost done: set<string>)
      returns (outcome: Outcome)
      requires wordData == Sources.AnalyserRecord(analyse(word))
      requires word !in done
      requires tables == Registered(tables0, done, analyse, ipaOf)
      modifies this
      ensures words == old(words)
      ensures outcome == Done <==> word !in TableOrEmpty(tables0, TableFor(word, analyse))
      ensures outcome == Done ==> tables == Registered(tables0, done + {word}, analyse, ipaOf)
      ensures outcome != Done ==> outcome == Duplicate(TableFor(word, analyse)) && tables == old(tables)
    {
      var pos := Sources.CategoryOf(wordData);
      assert pos == analyse(word).pos && wordData.baseForm == Some(analyse(word).baseForm);
      RegisteredMembership(tables0, done, analyse, ipaOf, word, TableFor(word, analyse));
      ghost var before := tables;
      outcome := InsertWord(word, wordData.baseForm, ipaOf(word), pos);
      assert tables == AddIfAbsent(before, TableFor(word, analyse), word, CategoryRowFor(word, analyse, ipaOf));
      if outcome == Done {
        RegisterStep(tables0, done, word, analyse, ipaOf);
      }
    }

    /**
     * The loop of `check_for_updates` as written: `insert_word` for each word to
     * insert, in any order, stopping at the first UNIQUE violation.
     */
    method InsertEachAsWritten(toInsert: set<string>, allWordData: map<string, Sources.WordData>,
                               analyse: string -> Sources.Analysis, ipaOf: string -> Option<string>)
      returns (outcome: Outcome)
      requires forall w :: w in toInsert ==> w in allWordData && allWordData[w] == Sources.AnalyserRecord(analyse(w))
      modifies this
      ensures words == old(words)
      ensures outcome == Done <==> forall w :: w in toInsert ==> w !in TableOrEmpty(old(tables), TableFor(w, analyse))
      ensures outcome == Done ==> tables == Registered(old(tables), toInsert, analyse, ipaOf)
      ensures outcome != Done ==>
        && outcome.Duplicate?
        && exists w :: w in toInsert && TableFor(w, analyse) == outcome.table && w in TableOrEmpty(old(tables), outcome.table)
      ensures outcome != Done ==> exists done :: done < toInsert && tables == Registered(old(tables), done, analyse, ipaOf)
    {
      var pending := toInsert;
      ghost var done: set<string> := {};
      RegisteredNothing(old(tables), analyse, ipaOf);
      while pending != {}
        invariant pending <= toInsert && done == toInsert - pending
        invariant words == old(words)
        invariant tables == Registered(old(tables), done, analyse, ipaOf)
        invariant forall w :: w in done ==> w !in TableOrEmpty(old(tables), TableFor(w, analyse))
        decreases pending
      {
        var word :| word in pending;
        outcome := InsertNextAsWritten(word, allWordData[word], analyse, ipaOf, old(tables), done);
        if outcome != Done {
          assert done < toInsert;
          return;
        }
        done := done + {word};
        pending := pending - {word};
      }
      assert done == toInsert;
      outcome := Done;
    }

    /**
     * `check_for_updates` as written: the words to insert are the merged source words
     * minus the words of the shared `words` table, and each goes through
     * `insert_word`, which writes only its category table. The first UNIQUE violation
     * aborts the run. Since `words` never changes, a second run on the same sources
     * tries the same words again.
     */
    method CheckForUpdatesAsWritten(files: seq<Sources.SourceFile>, analyse: string -> Sources.Analysis,
                                    ipaOf: string -> Option<string>)
      returns (outcome: Outcome)
      modifies this
      ensures words == old(words)
      ensures var toInsert := Sources.SourceWords(files) - old(words).Keys;
        outcome == Done <==> forall w :: w in toInsert ==> w !in TableOrEmpty(old(tables), TableFor(w, analyse))
      ensures outcome == Done ==>
        tables == Registered(old(tables), Sources.SourceWords(files) - old(words).Keys, analyse, ipaOf)
      ensures outcome != Done ==>
        && outcome.Duplicate?
        && exists w :: w in Sources.SourceWords(files) - old(words).Keys && TableFor(w, analyse) == outcome.table
                    && w in TableOrEmpty(old(tables), outcome.table)
      ensures outcome != Done ==> exists done :: done < Sources.SourceWords(files) - old(words).Keys
                                        && tables == Registered(old(tables), done, analyse, ipaOf)
    {
      var newWords, allWordData := Sources.MergeSources(files, analyse);
      var existing := words.Keys;
      var toInsert := newWords - existing;
      outcome := InsertEachAsWritten(toInsert, allWordData, analyse, ipaOf);
    }

    /** One pass of the corrected loop: register `word` on top of the words already done. */
    method RegisterNext(word: string, wordData: Sources.WordData, analyse: string -> Sources.Analysis,
                        ipaOf: string -> Option<string>, ghost words0: Index, ghost tables0: Tables, ghost done: set<string>)
      requires wordData == Sources.AnalyserRecord(analyse(word))
      requires word !in words0 && word !in done
      requires words == words0 + IndexRows(done, analyse, ipaOf)
      requires tables == Registered(tables0, done, analyse, ipaOf)
      modifies this
      ensures words == words0 + IndexRows(done + {word}, analyse, ipaOf)
      ensures tables == Registered(tables0, done + {word}, analyse, ipaOf)
    {
      var pos := Sources.CategoryOf(wordData);
      assert pos == analyse(word).pos && wordData.baseForm == Some(analyse(word).baseForm);
      assert word !in words;
      ghost var before := tables;
      var registered := Register(word, wordData.baseForm, ipaOf(word), pos);
      assert tables == AddIfAbsent(before, TableFor(word, analyse), word, CategoryRowFor(word, analyse, ipaOf));
      RegisterStep(tables0, done, word, analyse, ipaOf);
      IndexRowsStep(done, word, analyse, ipaOf);
      OverrideUpdate(words0, IndexRows(done, analyse, ipaOf), word, words[word]);
    }

    /**
     * The loop of the corrected `check_for_updates`: every word to insert is
     * registered in `words` and in its category table.
     */
    method RegisterEach(toInsert: set<string>, allWordData: map<string, Sources.WordData>,
                        analyse: string -> Sources.Analysis, ipaOf: string -> Option<string>)
      requires toInsert !! words.Keys
      requires forall w :: w in toInsert ==> w in allWordData && allWordData[w] == Sources.AnalyserRecord(analyse(w))
      modifies this
      ensures words == old(words) + IndexRows(toInsert, analyse, ipaOf)
      ensures tables == Registered(old(tables), toInsert, analyse, ipaOf)
    {
      var pending := toInsert;
      ghost var done: set<string> := {};
      RegisteredNothing(old(tables), analyse, ipaOf);
      assert IndexRows({}, analyse, ipaOf) == map[];
      while pending != {}
        invariant pending <= toInsert && done == toInsert - pending
        invariant words == old(words) + IndexRows(done, analyse, ipaOf)
        invariant tables == Registered(old(tables), done, analyse, ipaOf)
        decreases pending
      {
        var word :| word in pending;
        RegisterNext(word, allWordData[word], analyse, ipaOf, old(words), old(tables), done);
        done := done + {word};
        pending := pending - {word};
      }
      assert done == toInsert;
    }

    /**
     * `check_for_updates` corrected: each word to insert is registered in the shared
     * `words` table as well as in its category table (what `insert_word_async`
     * does), so the set difference sees it on the next run. A second run on
     * unchanged sources then has nothing to insert and changes nothing.
     */
    method CheckForUpdates(files: seq<Sources.SourceFile>, analyse: string -> Sources.Analysis,
                           ipaOf: string -> Option<string>)
      returns (outcome: Outcome)
      modifies this
      ensures outcome == Done
      ensures words == old(words) + IndexRows(Sources.SourceWords(files) - old(words).Keys, analyse, ipaOf)
      ensures tables == Registered(old(tables), Sources.SourceWords(files) - old(words).Keys, analyse, ipaOf)
      ensures Sources.SourceWords(files) <= words.Keys
      ensures Sources.SourceWords(files) <= old(words).Keys ==> words == old(words) && tables == old(tables)
    {
      var newWords, allWordData := Sources.MergeSources(files, analyse);
      var existing := words.Keys;
      var toInsert := newWords - existing;
      RegisterEach(toInsert, allWordData, analyse, ipaOf);
      if toInsert == {} {
        RegisteredNothing(old(tables), analyse, ipaOf);
        assert IndexRows({}, analyse, ipaOf) == map[];
      }
      outcome := Done;
    }
  }
}
