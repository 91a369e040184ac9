/**
 * Two runs of `check_for_updates` on unchanged sources, as written and corrected.
 * As written, the words a first run inserts stay outside the shared `words` table,
 * so the second run computes the same set difference and its first insert hits the
 * category table's UNIQUE constraint. Corrected, the second run changes nothing.
 */
module Scenarios {
  import opened Wrappers
  import Text
  import Sources
  import opened Store

  /** As written: a first run that inserts some word makes the second run fail. */
  method CheckTwiceAsWritten(store: WordStore, files: seq<Sources.SourceFile>, analyse: string -> Sources.Analysis,
                             ipaOf: string -> Option<string>)
    returns (first: Outcome, second: Outcome)
    requires Sources.SourceWords(files) - store.words.Keys != {}
    modifies store
    ensures first == Done ==> second.Duplicate?
  {
    ghost var toInsert := Sources.SourceWords(files) - store.words.Keys;
    ghost var tables0 := store.tables;
    first := store.CheckForUpdatesAsWritten(files, analyse, ipaOf);
    if first == Done {
      ghost var w :| w in toInsert;
      RegisteredMembership(tables0, toInsert, analyse, ipaOf, w, TableFor(w, analyse));
    }
    second := store.CheckForUpdatesAsWritten(files, analyse, ipaOf);
  }

  /** Corrected: both runs succeed, and two runs leave the store as one run does. */
  method CheckTwice(store: WordStore, files: seq<Sources.SourceFile>, analyse: string -> Sources.Analysis,
                    ipaOf: string -> Option<string>)
    returns (first: Outcome, second: Outcome)
    modifies store
    ensures first == Done && second == Done
    ensures store.words == old(store.words) + IndexRows(Sources.SourceWords(files) - old(store.words).Keys, analyse, ipaOf)
    ensures store.tables == Registered(old(store.tables), Sources.SourceWords(files) - old(store.words).Keys, analyse, ipaOf)
  {
    first := store.CheckForUpdates(files, analyse, ipaOf);
    second := store.CheckForUpdates(files, analyse, ipaOf);
  }

  /** Every word analysed as a verb whose lemma is itself. */
  function AsVerb(w: string): Sources.Analysis {
    Sources.Analysis(w, w, "VERB", "")
  }

  /** One decodable source file holding the single word "run". */
  function RunFile(): seq<Sources.SourceFile> {
    [Sources.SourceFile("words.json", Sources.Dict(map["run" := Sources.WordData(None, None, None, None, None, None)]))]
  }

  /** On an empty store the as-written update succeeds once and then fails on the `verbs` table. */
  method SecondRunAsWritten() returns (first: Outcome, second: Outcome)
    ensures first == Done && second == Duplicate("verbs")
  {
    var store := new WordStore();
    var files := RunFile();
    assert Sources.FileWords(files[0]) == {"run"};
    assert files[..0] == [];
    assert Sources.SourceWords(files) == {"run"};
    var ipaOf := (w: string) => None;
    first := store.CheckForUpdatesAsWritten(files, AsVerb, ipaOf);
    assert first == Done;
    second := store.CheckForUpdatesAsWritten(files, AsVerb, ipaOf);
    RegisteredMembership(map[], {"run"}, AsVerb, ipaOf, "run", TableFor("run", AsVerb));
    VerbTable();
    assert second.Duplicate? && second.table == "verbs";
  }

  /** The category table of verbs. */
  lemma VerbTable()
    ensures Text.TableName("VERB") == "verbs"
  {
  }

  /**
   * The call `insert_word(word, lemma, ipa)` of `handle_unknown_word`, with no
   * category, on an empty store: the word lands in `adjectives` with a NULL
   * definition, and that is the only table.
   */
  method InsertUnknownWord(word: string, baseForm: Option<string>, ipa: Option<string>)
    returns (outcome: Outcome, tables: Tables)
    ensures outcome == Done
    ensures tables == map["adjectives" := map[word := CategoryRow(baseForm, ipa, None)]]
  {
    var store := new WordStore();
    outcome := store.InsertWord(word, baseForm, ipa);
    Text.DefaultCategoryTable();
    tables := store.tables;
  }
}
