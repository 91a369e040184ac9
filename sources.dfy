/**
 * Word-source files and their merge (`get_new_words_from_json`). Each `.json` file
 * of the data directory holds either one dictionary word -> metadata or a list of
 * such dictionaries; the directory listing is the sequence `files`, and the
 * linguistic analyser is the function `analyse`.
 */
module Sources {
  import opened Wrappers
  import Text

  /**
   * A dictionary of word metadata, one optional field per key the source reads.
   * None stands for a missing key and for a JSON null alike.
   */
  datatype WordData = WordData(
    word: Option<string>,
    baseForm: Option<string>,   // the lemma
    ipa: Option<string>,
    pos: Option<string>,
    definition: Option<string>,
    entityType: Option<string>)

  /** What the analyser reports about the first token of a word. */
  datatype Analysis = Analysis(text: string, baseForm: string, pos: string, entityType: string)

  /** The record the merge stores for a word: keys word, lemma, pos and entity_type. */
  function AnalyserRecord(a: Analysis): (r: WordData)
    ensures r.word == Some(a.text) && r.baseForm == Some(a.baseForm)
    ensures r.pos == Some(a.pos) && r.entityType == Some(a.entityType)
    ensures r.ipa.None? && r.definition.None?
  {
    WordData(Some(a.text), Some(a.baseForm), None, Some(a.pos), None, Some(a.entityType))
  }

  /** `word_data.get("pos", "ADJECTIVE")`. */
  function CategoryOf(d: WordData): (r: string)
    ensures d.pos.None? ==> r == Text.DefaultCategory
    ensures d.pos.Some? ==> r == d.pos.value
  {
    d.pos.GetOr(Text.DefaultCategory)
  }

  /** A source file's parsed content; Malformed is a file that fails to decode. */
  datatype Json =
    | Dict(entries: map<string, WordData>)
    | List(items: seq<map<string, WordData>>)
    | Malformed

  datatype SourceFile = SourceFile(name: string, content: Json)

  /** The keys of every dictionary in a list. */
  function ListWords(items: seq<map<string, WordData>>): (r: set<string>)
    ensures forall j :: 0 <= j < |items| ==> items[j].Keys <= r
  {
    if |items| == 0 then {} else ListWords(items[..|items| - 1]) + items[|items| - 1].Keys
  }

  /** The words a file contributes: none unless it is a `.json` file that decodes. */
  function FileWords(f: SourceFile): set<string> {
    if !Text.EndsWith(f.name, ".json") then {}
    else match f.content
      case Dict(entries) => entries.Keys
      case List(items) => ListWords(items)
      case Malformed => {}
  }

  /** The words of all files, accumulated in listing order. */
  function SourceWords(files: seq<SourceFile>): (r: set<string>)
    ensures forall i :: 0 <= i < |files| ==> FileWords(files[i]) <= r
  {
    if |files| == 0 then {} else SourceWords(files[..|files| - 1]) + FileWords(files[|files| - 1])
  }

  lemma {:induction false} ListWordsMembership(items: seq<map<string, WordData>>, w: string)
    ensures w in ListWords(items) <==> exists j :: 0 <= j < |items| && w in items[j]
  {
    if |items| > 0 {
      var init := items[..|items| - 1];
      ListWordsMembership(init, w);
      assert forall j :: 0 <= j < |init| ==> init[j] == items[j];
    }
  }

  /** The merged word set is the union of the keys of every dictionary of every decodable `.json` file. */
  lemma {:induction false} SourceWordsMembership(files: seq<SourceFile>, w: string)
    ensures w in SourceWords(files) <==> exists i :: 0 <= i < |files| && w in FileWords(files[i])
  {
    if |files| > 0 {
      var init := files[..|files| - 1];
      SourceWordsMembership(init, w);
      assert forall i :: 0 <= i < |init| ==> init[i] == files[i];
    }
  }

  /**
   * `get_new_words_from_json`. Dictionaries are merged last-write-wins, and after
   * each decoded file every word seen so far is re-analysed and its entry replaced
   * by the analyser record. So nothing a file says about a word survives the
   * merge: only its key does.
   */
  method MergeSources(files: seq<SourceFile>, analyse: string -> Analysis)
    returns (newWords: set<string>, allWordData: map<string, WordData>)
    ensures newWords == SourceWords(files)
    ensures allWordData.Keys == newWords
    ensures forall w :: w in allWordData ==> allWordData[w] == AnalyserRecord(analyse(w))
  {
    newWords := {};
    allWordData := map[];
    var i := 0;
    while i < |files|
      invariant 0 <= i <= |files|
      invariant newWords == SourceWords(files[..i])
      invariant allWordData.Keys == newWords
      invariant forall w :: w in allWordData ==> allWordData[w] == AnalyserRecord(analyse(w))
    {
      var file := files[i];
      assert files[..i + 1][..i] == files[..i];
      var decoded := Text.EndsWith(file.name, ".json") && !file.content.Malformed?;
      if decoded {
        if file.content.List? {
          var items := file.content.items;
          var j := 0;
          while j < |items|
            invariant 0 <= j <= |items|
            invariant allWordData.Keys == newWords
            invariant newWords == SourceWords(files[..i]) + ListWords(items[..j])
          {
            allWordData := allWordData + items[j];
            newWords := newWords + items[j].Keys;
            assert items[..j + 1][..j] == items[..j];
            j := j + 1;
          }
          assert items[..j] == items;
        } else {
          allWordData := allWordData + file.content.entries;
          newWords := newWords + file.content.entries.Keys;
        }
        // every word seen so far gets the analyser's record
        var pending := newWords;
        while pending != {}
          invariant pending <= newWords
          invariant allWordData.Keys == newWords
          invariant forall w :: w in allWordData && w !in pending ==> allWordData[w] == AnalyserRecord(analyse(w))
          decreases pending
        {
          var word :| word in pending;
          allWordData := allWordData[word := AnalyserRecord(analyse(word))];
          pending := pending - {word};
        }
      }
      i := i + 1;
    }
    assert files[..i] == files;
  }
}
