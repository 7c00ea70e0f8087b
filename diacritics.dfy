/** Removal of Hebrew points and cantillation marks from translated words
    (`strip_diacritics` in translation.py). Words are sequences of code points. */
module Diacritics {

  /** Lowest and highest code point that is stripped (U+0591 and U+05C7). */
  const FirstMark: int := 1425
  const LastMark: int := 1479

  predicate IsMark(c: char)
    ensures IsMark(c) ==> '\U{0590}' < c < '\U{05D0}'
  {
    FirstMark <= c as int <= LastMark
  }

  /** The letters of `w` that are not marks, in their original order. */
  function Stripped(w: string): (r: string)
    ensures |r| <= |w|
  {
    if w == [] then []
    else
      var init := Stripped(w[..|w| - 1]);
      var c := w[|w| - 1];
      if IsMark(c) then init else init + [c]
  }

  /** `_strip_word`: the loop that appends every letter outside the mark range. */
  method StripWord(word: string) returns (stripped: string)
    ensures stripped == Stripped(word)
  {
    stripped := "";
    for i := 0 to |word|
      invariant stripped == Stripped(word[..i])
    {
      var letter := word[i];
      assert word[..i + 1][..i] == word[..i];
      if !IsMark(letter) {
        stripped := stripped + [letter];
      }
    }
    assert word[..|word|] == word;
  }

  /** `strip_diacritics`: every word stripped, word for word. */
  function StrippedAll(words: seq<string>): (r: seq<string>)
    ensures |r| == |words|
  {
    seq(|words|, i requires 0 <= i < |words| => Stripped(words[i]))
  }

  /** The list comprehension of `strip_diacritics`, calling the loop for each word. */
  method StripDiacritics(words: seq<string>) returns (r: seq<string>)
    ensures |r| == |words|
    ensures forall i :: 0 <= i < |words| ==> r[i] == Stripped(words[i])
  {
    r := [];
    for i := 0 to |words|
      invariant |r| == i
      invariant forall j :: 0 <= j < i ==> r[j] == Stripped(words[j])
    {
      var s := StripWord(words[i]);
      r := r + [s];
    }
  }

  /** No letter of a stripped word is a mark, and each comes from the input. */
  lemma {:induction false} StrippedHasNoMarks(w: string)
    ensures forall i :: 0 <= i < |Stripped(w)| ==> !IsMark(Stripped(w)[i])
    ensures forall c :: c in Stripped(w) ==> c in w
  {
    if w != [] {
      var init := w[..|w| - 1];
      StrippedHasNoMarks(init);
      assert forall c :: c in init ==> c in w;
    }
  }

  /** Appending one letter appends it to the stripped word exactly when it is not a mark. */
  lemma StrippedSnoc(w: string, c: char)
    ensures Stripped(w + [c]) == if IsMark(c) then Stripped(w) else Stripped(w) + [c]
  {
    assert (w + [c])[..|w|] == w;
  }

  /** Stripping distributes over concatenation: each letter is kept or dropped on its own,
      and the kept letters stay in order. */
  lemma {:induction false} StrippedAppend(a: string, b: string)
    ensures Stripped(a + b) == Stripped(a) + Stripped(b)
    decreases |b|
  {
    if b == [] {
      assert a + b == a;
    } else {
      var b', c := b[..|b| - 1], b[|b| - 1];
      assert a + b == (a + b') + [c];
      assert b' + [c] == b;
      StrippedAppend(a, b');
      StrippedSnoc(a + b', c);
      StrippedSnoc(b', c);
      if !IsMark(c) {
        assert (Stripped(a) + Stripped(b')) + [c] == Stripped(a) + (Stripped(b') + [c]);
      }
    }
  }

  /** A word without marks comes back unchanged. */
  lemma {:induction false} StrippedClean(w: string)
    requires forall i :: 0 <= i < |w| ==> !IsMark(w[i])
    ensures Stripped(w) == w
  {
    if w != [] {
      StrippedClean(w[..|w| - 1]);
    }
  }

  /** Stripping twice is the same as stripping once. */
  lemma StrippedIdempotent(w: string)
    ensures Stripped(Stripped(w)) == Stripped(w)
  {
    StrippedHasNoMarks(w);
    StrippedClean(Stripped(w));
  }

  /** The same holds for a whole list of words. */
  lemma StrippedAllIdempotent(words: seq<string>)
    ensures StrippedAll(StrippedAll(words)) == StrippedAll(words)
  {
    forall i | 0 <= i < |words|
      ensures StrippedAll(StrippedAll(words))[i] == StrippedAll(words)[i]
    {
      StrippedIdempotent(words[i]);
    }
  }

  /** The first word of the source's test ("shirt", with a dagesh and a qamats), spelled letter by letter. */
  lemma ShirtSpelling()
    ensures "\U{05D7}\U{05D5}\U{05BC}\U{05DC}\U{05E6}\U{05B8}\U{05D4}" == ['\U{05D7}'] + ['\U{05D5}'] + ['\U{05BC}'] + ['\U{05DC}'] + ['\U{05E6}'] + ['\U{05B8}'] + ['\U{05D4}']
    ensures "\U{05D7}\U{05D5}\U{05DC}\U{05E6}\U{05D4}" == ['\U{05D7}'] + ['\U{05D5}'] + ['\U{05DC}'] + ['\U{05E6}'] + ['\U{05D4}']
  {
  }

  /** Stripping the spelled-out first word: each letter is kept or dropped as `StrippedSnoc` says. */
  lemma StripShirtLetters()
    ensures Stripped(['\U{05D7}'] + ['\U{05D5}'] + ['\U{05BC}'] + ['\U{05DC}'] + ['\U{05E6}'] + ['\U{05B8}'] + ['\U{05D4}']) == ['\U{05D7}'] + ['\U{05D5}'] + ['\U{05DC}'] + ['\U{05E6}'] + ['\U{05D4}']
  {
    assert Stripped(['\U{05D7}']) == ['\U{05D7}'];
    StrippedSnoc(['\U{05D7}'], '\U{05D5}');
    StrippedSnoc(['\U{05D7}'] + ['\U{05D5}'], '\U{05BC}');
    StrippedSnoc(['\U{05D7}'] + ['\U{05D5}'] + ['\U{05BC}'], '\U{05DC}');
    StrippedSnoc(['\U{05D7}'] + ['\U{05D5}'] + ['\U{05BC}'] + ['\U{05DC}'], '\U{05E6}');
    StrippedSnoc(['\U{05D7}'] + ['\U{05D5}'] + ['\U{05BC}'] + ['\U{05DC}'] + ['\U{05E6}'], '\U{05B8}');
    StrippedSnoc(['\U{05D7}'] + ['\U{05D5}'] + ['\U{05BC}'] + ['\U{05DC}'] + ['\U{05E6}'] + ['\U{05B8}'], '\U{05D4}');
  }

  /** The first word of the source's test ("shirt", with a dagesh and a qamats) loses exactly its points. */
  lemma StripShirt()
    ensures Stripped("\U{05D7}\U{05D5}\U{05BC}\U{05DC}\U{05E6}\U{05B8}\U{05D4}") == "\U{05D7}\U{05D5}\U{05DC}\U{05E6}\U{05D4}"
  {
    ShirtSpelling();
    StripShirtLetters();
  }

  /** The second word of the source's test ("trousers", with five vowel points), spelled letter by letter. */
  lemma TrousersSpelling()
    ensures "\U{05DE}\U{05B4}\U{05DB}\U{05B0}\U{05E0}\U{05B8}\U{05E1}\U{05B7}\U{05D9}\U{05B4}\U{05D9}\U{05DD}" == ['\U{05DE}'] + ['\U{05B4}'] + ['\U{05DB}'] + ['\U{05B0}'] + ['\U{05E0}'] + ['\U{05B8}'] + ['\U{05E1}'] + ['\U{05B7}'] + ['\U{05D9}'] + ['\U{05B4}'] + ['\U{05D9}'] + ['\U{05DD}']
    ensures "\U{05DE}\U{05DB}\U{05E0}\U{05E1}\U{05D9}\U{05D9}\U{05DD}" == ['\U{05DE}'] + ['\U{05DB}'] + ['\U{05E0}'] + ['\U{05E1}'] + ['\U{05D9}'] + ['\U{05D9}'] + ['\U{05DD}']
  {
  }

  /** Stripping the spelled-out second word: each letter is kept or dropped as `StrippedSnoc` says. */
  lemma StripTrousersLetters()
    ensures Stripped(['\U{05DE}'] + ['\U{05B4}'] + ['\U{05DB}'] + ['\U{05B0}'] + ['\U{05E0}'] + ['\U{05B8}'] + ['\U{05E1}'] + ['\U{05B7}'] + ['\U{05D9}'] + ['\U{05B4}'] + ['\U{05D9}'] + ['\U{05DD}']) == ['\U{05DE}'] + ['\U{05DB}'] + ['\U{05E0}'] + ['\U{05E1}'] + ['\U{05D9}'] + ['\U{05D9}'] + ['\U{05DD}']
  {
    assert Stripped(['\U{05DE}']) == ['\U{05DE}'];
    StrippedSnoc(['\U{05DE}'], '\U{05B4}');
    StrippedSnoc(['\U{05DE}'] + ['\U{05B4}'], '\U{05DB}');
    StrippedSnoc(['\U{05DE}'] + ['\U{05B4}'] + ['\U{05DB}'], '\U{05B0}');
    StrippedSnoc(['\U{05DE}'] + ['\U{05B4}'] + ['\U{05DB}'] + ['\U{05B0}'], '\U{05E0}');
    StrippedSnoc(['\U{05DE}'] + ['\U{05B4}'] + ['\U{05DB}'] + ['\U{05B0}'] + ['\U{05E0}'], '\U{05B8}');
    StrippedSnoc(['\U{05DE}'] + ['\U{05B4}'] + ['\U{05DB}'] + ['\U{05B0}'] + ['\U{05E0}'] + ['\U{05B8}'], '\U{05E1}');
    StrippedSnoc(['\U{05DE}'] + ['\U{05B4}'] + ['\U{05DB}'] + ['\U{05B0}'] + ['\U{05E0}'] + ['\U{05B8}'] + ['\U{05E1}'], '\U{05B7}');
    StrippedSnoc(['\U{05DE}'] + ['\U{05B4}'] + ['\U{05DB}'] + ['\U{05B0}'] + ['\U{05E0}'] + ['\U{05B8}'] + ['\U{05E1}'] + ['\U{05B7}'], '\U{05D9}');
    StrippedSnoc(['\U{05DE}'] + ['\U{05B4}'] + ['\U{05DB}'] + ['\U{05B0}'] + ['\U{05E0}'] + ['\U{05B8}'] + ['\U{05E1}'] + ['\U{05B7}'] + ['\U{05D9}'], '\U{05B4}');
    StrippedSnoc(['\U{05DE}'] + ['\U{05B4}'] + ['\U{05DB}'] + ['\U{05B0}'] + ['\U{05E0}'] + ['\U{05B8}'] + ['\U{05E1}'] + ['\U{05B7}'] + ['\U{05D9}'] + ['\U{05B4}'], '\U{05D9}');
    StrippedSnoc(['\U{05DE}'] + ['\U{05B4}'] + ['\U{05DB}'] + ['\U{05B0}'] + ['\U{05E0}'] + ['\U{05B8}'] + ['\U{05E1}'] + ['\U{05B7}'] + ['\U{05D9}'] + ['\U{05B4}'] + ['\U{05D9}'], '\U{05DD}');
  }

  /** The second word of the source's test ("trousers", with five vowel points) loses exactly its points. */
  lemma StripTrousers()
    ensures Stripped("\U{05DE}\U{05B4}\U{05DB}\U{05B0}\U{05E0}\U{05B8}\U{05E1}\U{05B7}\U{05D9}\U{05B4}\U{05D9}\U{05DD}") == "\U{05DE}\U{05DB}\U{05E0}\U{05E1}\U{05D9}\U{05D9}\U{05DD}"
  {
    TrousersSpelling();
    StripTrousersLetters();
  }

  /** The source's test case: both words lose their points and nothing else. */
  lemma StripExample()
    ensures StrippedAll(["\U{05D7}\U{05D5}\U{05BC}\U{05DC}\U{05E6}\U{05B8}\U{05D4}", "\U{05DE}\U{05B4}\U{05DB}\U{05B0}\U{05E0}\U{05B8}\U{05E1}\U{05B7}\U{05D9}\U{05B4}\U{05D9}\U{05DD}"]) == ["\U{05D7}\U{05D5}\U{05DC}\U{05E6}\U{05D4}", "\U{05DE}\U{05DB}\U{05E0}\U{05E1}\U{05D9}\U{05D9}\U{05DD}"]
  {
    StripShirt();
    StripTrousers();
  }
}
