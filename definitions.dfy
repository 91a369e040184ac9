/**
 * Where a definition comes from: the value a source supplies, then web source 1
 * (`get_definition_website1`), then web source 2 (`get_definition_website2`).
 * Python's `x or y` on optional strings decides every precedence here.
 */
module Definitions {
  import opened Wrappers

  /** What web source 1 yields: a definition with an optional example, or nothing. */
  type FetchA = Option<(string, Option<string>)>

  /** Python truthiness of a nullable string: present and non-empty. */
  predicate Truthy(d: Option<string>) {
    d.Some? && d.value != ""
  }

  /** Python's `x or y`: `x` when it is truthy, otherwise `y` whatever it is. */
  function OrElse(x: Option<string>, y: Option<string>): (r: Option<string>)
    ensures Truthy(x) ==> r == x
    ensures !Truthy(x) ==> r == y
    ensures Truthy(r) <==> Truthy(x) || Truthy(y)
  {
    if Truthy(x) then x else y
  }

  /**
   * The definition part of web source 1's answer. The source's fetcher returns the
   * pair `(definition, example)`, and `(None, None)` on failure; a Python tuple is
   * always truthy, so `website1(word) or website2(word)` never reaches web source 2
   * as written. The model takes the evidently intended reading: the definition
   * string takes part in the `or`, and an absent answer falls through.
   */
  function DefinitionOfA(a: FetchA): (r: Option<string>)
    ensures a.None? ==> r.None?
    ensures a.Some? ==> r == Some(a.value.0)
  {
    match a
    case None => None
    case Some((definition, _)) => Some(definition)
  }

  /**
   * The definition `insert_or_update_word` stores when the word has none yet:
   * the provided one if truthy, else web source 1's, else web source 2's.
   */
  function Resolve(provided: Option<string>, a: FetchA, b: Option<string>): (r: Option<string>)
    ensures Truthy(provided) ==> r == provided
    ensures !Truthy(provided) && Truthy(DefinitionOfA(a)) ==> r == DefinitionOfA(a)
    ensures !Truthy(provided) && !Truthy(DefinitionOfA(a)) ==> r == b
    ensures Truthy(r) <==> Truthy(provided) || Truthy(DefinitionOfA(a)) || Truthy(b)
  {
    OrElse(provided, OrElse(DefinitionOfA(a), b))
  }

  /** Web source 2 is consulted only when neither earlier source has a definition. */
  lemma ResolveIgnoresLaterSources(provided: Option<string>, a: FetchA, b1: Option<string>, b2: Option<string>, a2: FetchA)
    ensures Truthy(provided) ==> Resolve(provided, a, b1) == Resolve(provided, a2, b2)
    ensures Truthy(DefinitionOfA(a)) ==> Resolve(provided, a, b1) == Resolve(provided, a, b2)
  {
  }

  /** The definition `get_definitions_concurrently` records for one word: `def1 or def2`. */
  function Combine(a: FetchA, b: Option<string>): (r: Option<string>)
    ensures Truthy(DefinitionOfA(a)) ==> r == DefinitionOfA(a)
    ensures !Truthy(DefinitionOfA(a)) ==> r == b
  {
    OrElse(DefinitionOfA(a), b)
  }

  /**
   * `get_definitions_concurrently`: both web sources are asked about every word and
   * the two answers for the same word are combined. The source pairs `zip(words,
   * results)` over a flat list of 2n results; the model pairs each word with its
   * own two answers, which is what the tuple unpacking there intends.
   */
  method CombineDefinitions(words: seq<string>, fetchA: string -> FetchA, fetchB: string -> Option<string>)
    returns (definitions: map<string, Option<string>>)
    ensures definitions.Keys == set w | w in words
    ensures forall w :: w in definitions ==> definitions[w] == Combine(fetchA(w), fetchB(w))
  {
    definitions := map[];
    var i := 0;
    while i < |words|
      invariant 0 <= i <= |words|
      invariant definitions.Keys == set w | w in words[..i]
      invariant forall w :: w in definitions ==> definitions[w] == Combine(fetchA(w), fetchB(w))
    {
      var word := words[i];
      definitions := definitions[word := Combine(fetchA(word), fetchB(word))];
      assert words[..i + 1] == words[..i] + [word];
      i := i + 1;
    }
    assert words[..i] == words;
  }
}
