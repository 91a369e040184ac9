/**
 * The conversational side of the word store: choosing the known word most similar
 * to the user's input (`generate_response`) and staging a word the user has just
 * defined (`handle_unknown_word`). The analyser's similarity is an integer score
 * `similarity(input, word)`; the staged dictionary is the decoded content of the
 * staging file, or None when that file is missing or does not decode.
 */
module Session {
  import opened Wrappers
  import Sources

  /**
   * `i` is the position the argmax of `generate_response` settles on: its score beats
   * the starting threshold 0 and every earlier score strictly (ties keep the earlier
   * word), and no later score exceeds it.
   */
  predicate FirstMax(order: seq<string>, input: string, similarity: (string, string) -> int, i: nat) {
    && i < |order|
    && similarity(input, order[i]) > 0
    && (forall j :: 0 <= j < i ==> similarity(input, order[j]) < similarity(input, order[i]))
    && (forall j :: i < j < |order| ==> similarity(input, order[j]) <= similarity(input, order[i]))
  }

  /** At most one position is the first maximum. */
  lemma FirstMaxUnique(order: seq<string>, input: string, similarity: (string, string) -> int, i: nat, k: nat)
    requires FirstMax(order, input, similarity, i) && FirstMax(order, input, similarity, k)
    ensures i == k
  {
  }

  /**
   * The loop of `generate_response` over the known words in iteration order: keep
   * the highest score seen, starting from 0, and replace it only on a strictly
   * higher one. None when no score is positive.
   */
  method MostSimilar(order: seq<string>, input: string, similarity: (string, string) -> int) returns (best: Option<nat>)
    ensures best.Some? ==> FirstMax(order, input, similarity, best.value)
    ensures best.None? <==> forall j :: 0 <= j < |order| ==> similarity(input, order[j]) <= 0
  {
    best := None;
    var highest := 0;
    var i := 0;
    while i < |order|
      invariant 0 <= i <= |order|
      invariant best.None? ==> highest == 0 && forall j :: 0 <= j < i ==> similarity(input, order[j]) <= 0
      invariant best.Some? ==>
        && best.value < i
        && highest == similarity(input, order[best.value]) > 0
        && (forall j :: 0 <= j < best.value ==> similarity(input, order[j]) < highest)
        && (forall j :: best.value < j < i ==> similarity(input, order[j]) <= highest)
    {
      var score := similarity(input, order[i]);
      if score > highest {
        highest := score;
        best := Some(i);
      }
      i := i + 1;
    }
  }

  /** How an f-string shows an optional definition: the text, or `None`. */
  function Shown(d: Option<string>): (r: string)
    ensures d.Some? ==> r == d.value
    ensures d.None? ==> r == "None"
  {
    d.GetOr("None")
  }

  /**
   * `generate_response`: the most similar word of `data` and its definition, as
   * "word: definition". `order` lists the keys of `data` in dictionary order. No
   * answer when no word scores above 0, and none when the best word is the empty
   * string, which is falsy.
   */
  method GenerateResponse(input: string, order: seq<string>, data: map<string, Sources.WordData>,
                          similarity: (string, string) -> int)
    returns (response: Option<string>)
    requires forall j :: 0 <= j < |order| ==> order[j] in data
    requires forall w :: w in data ==> w in order
    ensures (forall j :: 0 <= j < |order| ==> similarity(input, order[j]) <= 0) ==> response.None?
    ensures forall i: nat :: FirstMax(order, input, similarity, i) ==>
      response == if order[i] == "" then None else Some(order[i] + ": " + Shown(data[order[i]].definition))
  {
    var best := MostSimilar(order, input, similarity);
    if best.None? {
      return None;
    }
    var word := order[best.value];
    if word == "" {
      return None;
    }
    forall i: nat | FirstMax(order, input, similarity, i)
      ensures i == best.value
    {
      FirstMaxUnique(order, input, similarity, i, best.value);
    }
    response := Some(word + ": " + Shown(data[word].definition));
  }

  /** The entry `handle_unknown_word` stages: the word as its own lemma, the user's definition, its ipa. */
  function StagedEntry(word: string, definition: string, ipa: Option<string>): (r: Sources.WordData)
    ensures r.word == Some(word) && r.baseForm == Some(word)
    ensures r.definition == Some(definition) && r.ipa == ipa
    ensures r.pos.None? && r.entityType.None?
  {
    Sources.WordData(Some(word), Some(word), ipa, None, Some(definition), None)
  }

  /**
   * The staging merge of `handle_unknown_word`: the staged dictionary (empty when it
   * could not be loaded) with the word's entry set, whether or not it was staged
   * before, and every other entry kept.
   */
  function Stage(loaded: Option<map<string, Sources.WordData>>, word: string, definition: string,
                 ipa: Option<string>): (r: map<string, Sources.WordData>)
    ensures loaded.Some? ==> r.Keys == loaded.value.Keys + {word}
    ensures loaded.None? ==> r.Keys == {word}
    ensures r[word] == StagedEntry(word, definition, ipa)
    ensures loaded.Some? ==> forall w :: w in loaded.value && w != word ==> r[w] == loaded.value[w]
  {
    loaded.GetOr(map[])[word := StagedEntry(word, definition, ipa)]
  }

  /** Staging the same word again with the same answer changes nothing. */
  lemma StageIdempotent(loaded: Option<map<string, Sources.WordData>>, word: string, definition: string,
                        ipa: Option<string>)
    ensures Stage(Some(Stage(loaded, word, definition, ipa)), word, definition, ipa) == Stage(loaded, word, definition, ipa)
  {
  }

  /** Staging two different words gives the same dictionary in either order. */
  lemma StagesCommute(loaded: map<string, Sources.WordData>, w1: string, d1: string, i1: Option<string>,
                      w2: string, d2: string, i2: Option<string>)
    requires w1 != w2
    ensures Stage(Some(Stage(Some(loaded), w1, d1, i1)), w2, d2, i2)
         == Stage(Some(Stage(Some(loaded), w2, d2, i2)), w1, d1, i1)
  {
  }
}
