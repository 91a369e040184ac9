/**
 * String transforms of the word store: `preprocess_input` (lower-case, title-case,
 * delete ASCII punctuation) and the category table name `pos.lower() + "s"`.
 * Case mapping is ASCII only.
 */
module Text {

  /** The characters `preprocess_input` deletes: Python's `string.punctuation`. */
  const Punctuation: string := "!\"#$%&'()*+,-./:;<=>?@[\\]^_`{|}~"

  predicate IsUpper(c: char) { 'A' <= c <= 'Z' }
  predicate IsLower(c: char) { 'a' <= c <= 'z' }

  /** A cased character; `str.title` starts a new word after any character that is not cased. */
  predicate IsCased(c: char) { IsUpper(c) || IsLower(c) }

  function LowerChar(c: char): (r: char)
    ensures IsCased(r) <==> IsCased(c)
    ensures !IsUpper(r)
    ensures !IsCased(c) ==> r == c
  {
    if IsUpper(c) then (c as int + 32) as char else c
  }

  function UpperChar(c: char): (r: char)
    ensures IsCased(r) <==> IsCased(c)
    ensures !IsLower(r)
    ensures !IsCased(c) ==> r == c
  {
    if IsLower(c) then (c as int - 32) as char else c
  }

  /** `s.lower()`: every character mapped through LowerChar, nothing else changed. */
  function Lower(s: string): (r: string)
    ensures |r| == |s|
    ensures forall i :: 0 <= i < |s| ==> r[i] == LowerChar(s[i])
  {
    seq(|s|, i requires 0 <= i < |s| => LowerChar(s[i]))
  }

  /** How `str.title` maps one character, given whether the character before it is cased. */
  function TitleChar(c: char, afterCased: bool): char {
    if !IsCased(c) then c else if afterCased then LowerChar(c) else UpperChar(c)
  }

  /** `str.title` on the rest of a string whose previous character was cased iff `prevCased`. */
  function TitleFrom(s: string, prevCased: bool): (r: string)
    ensures |r| == |s|
    ensures forall i :: 0 <= i < |s| ==>
      r[i] == TitleChar(s[i], if i == 0 then prevCased else IsCased(s[i - 1]))
  {
    if s == [] then [] else [TitleChar(s[0], prevCased)] + TitleFrom(s[1..], IsCased(s[0]))
  }

  /** `s.title()`: a letter is upper-cased when it opens a run of letters, lower-cased otherwise. */
  function Title(s: string): (r: string)
    ensures |r| == |s|
    ensures forall i :: 0 <= i < |s| ==> r[i] == TitleChar(s[i], i > 0 && IsCased(s[i - 1]))
  {
    TitleFrom(s, false)
  }

  /** `s.translate(str.maketrans('', '', string.punctuation))`: the punctuation deleted, the rest kept in order. */
  function StripPunctuation(s: string): (r: string)
    ensures |r| <= |s|
    ensures forall c :: c in r ==> c in s && c !in Punctuation
    ensures (forall c :: c in s ==> c !in Punctuation) ==> r == s
  {
    if s == [] then []
    else (if s[0] in Punctuation then [] else [s[0]]) + StripPunctuation(s[1..])
  }

  /** Deleting punctuation from a concatenation deletes it from each part. */
  lemma {:induction false} StripPunctuationAppend(a: string, b: string)
    ensures StripPunctuation(a + b) == StripPunctuation(a) + StripPunctuation(b)
  {
    if a == [] {
      assert a + b == b;
    } else {
      var ab := a + b;
      assert ab[0] == a[0] && ab[1..] == a[1..] + b;
      StripPunctuationAppend(a[1..], b);
      assert StripPunctuation(ab) == (if a[0] in Punctuation then [] else [a[0]]) + StripPunctuation(ab[1..]);
    }
  }

  /** `preprocess_input`: lower-case, then title-case, then delete punctuation. */
  function Preprocess(input: string): (r: string)
    ensures forall c :: c in r ==> c !in Punctuation
    ensures |r| <= |input|
  {
    StripPunctuation(Title(Lower(input)))
  }

  /** The `lower()` before `title()` changes nothing: title-casing fixes the case of every letter. */
  lemma TitleIgnoresCase(s: string)
    ensures Title(Lower(s)) == Title(s)
  {
    var l := Lower(s);
    forall i | 0 <= i < |s|
      ensures Title(l)[i] == Title(s)[i]
    {
      assert l[i] == LowerChar(s[i]);
      if i > 0 {
        assert l[i - 1] == LowerChar(s[i - 1]);
      }
    }
  }

  /** Hence preprocessing depends on the input only up to case. */
  lemma PreprocessIgnoresCase(s: string, t: string)
    requires Lower(s) == Lower(t)
    ensures Preprocess(s) == Preprocess(t)
    ensures Preprocess(s) == StripPunctuation(Title(s))
  {
    TitleIgnoresCase(s);
  }

  /** The category table name: `pos.lower() + "s"`. */
  function TableName(pos: string): (r: string)
    ensures |r| == |pos| + 1 && r[|pos|] == 's'
    ensures r[..|pos|] == Lower(pos)
    ensures forall c :: c in r ==> !IsUpper(c)
  {
    Lower(pos) + "s"
  }

  /** Two categories share a table exactly when they agree up to case. */
  lemma SameTableIffSameLowered(p: string, q: string)
    ensures TableName(p) == TableName(q) <==> Lower(p) == Lower(q)
  {
  }

  const DefaultCategory: string := "ADJECTIVE"

  /** The default category's table. */
  lemma DefaultCategoryTable()
    ensures TableName(DefaultCategory) == "adjectives"
  {
  }

  function EndsWith(s: string, suffix: string): bool {
    |suffix| <= |s| && s[|s| - |suffix|..] == suffix
  }
}
