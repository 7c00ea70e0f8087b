/** The record of flashcard candidates (`WordTranslationPairs` in main.py) and the
    uniqueness checks made on it. The english word is always field 0 and the translation
    field 1, the positions every caller in the source uses. */
module WordPairs {
  import opened Wrappers

  /** NUM_INPUT_FILE_FIELDS: english, translation and one extra field. */
  const NumFields: nat := 3

  /** One stored tuple. */
  datatype Entry = Entry(english: string, translation: string, extra: string) {
    /** The entry as the source's 3-field tuple. */
    function Fields(): (t: seq<string>)
      ensures |t| == NumFields
    {
      [english, translation, extra]
    }
  }

  /** The exceptions raised by this part of main.py. */
  datatype PairsError =
    | MalformedRow(row: seq<string>, actual: nat, expected: nat)  // ValueError in normalisation
    | TranslationNotFound(word: string)                            // ValueError in remove_translated_word
    | KeyError(key: string)                                        // a failed dictionary lookup
    | Duplicated(word: string)                                     // ValueError in _check_unique
    | WordsNotUnique                                               // 'Not all words are unique.'
    | TranslationsNotUnique                                        // 'Not all translations are unique.'

  // ---------------------------------------------------------------------------
  // Normalisation of the input rows

  /** One input row brought to three fields: a 3-field row is kept, a 2-field row gets an
      empty extra field, any other arity is rejected. */
  function NormalizeRow(row: seq<string>): (r: Result<Entry, PairsError>)
    ensures r.Ok? <==> |row| == NumFields || |row| == 2
    ensures r.Ok? && |row| == NumFields ==> r.value.Fields() == row
    ensures r.Ok? && |row| == 2 ==> r.value.Fields() == row + [""]
    ensures r.Err? ==> r.error == MalformedRow(row, |row|, NumFields)
  {
    if |row| == NumFields then Ok(Entry(row[0], row[1], row[2]))
    else if |row| == 2 then Ok(Entry(row[0], row[1], ""))
    else Err(MalformedRow(row, |row|, NumFields))
  }

  /** The rows normalised in order; the first malformed row aborts the whole list. */
  function Normalize(rows: seq<seq<string>>): (r: Result<seq<Entry>, PairsError>)
    ensures r.Ok? <==> forall i :: 0 <= i < |rows| ==> NormalizeRow(rows[i]).Ok?
    ensures r.Ok? ==> |r.value| == |rows| &&
                      forall i :: 0 <= i < |rows| ==> NormalizeRow(rows[i]) == Ok(r.value[i])
  {
    if rows == [] then Ok([])
    else
      var init := rows[..|rows| - 1];
      assert forall i :: 0 <= i < |init| ==> init[i] == rows[i];
      match Normalize(init)
      case Err(e) => Err(e)
      case Ok(done) =>
        match NormalizeRow(rows[|rows| - 1])
        case Err(e) => Err(e)
        case Ok(entry) => Ok(done + [entry])
  }

  /** Once a prefix of the rows fails, the whole list fails with the same error. */
  lemma {:induction false} NormalizePrefixError(rows: seq<seq<string>>, n: nat)
    requires n <= |rows|
    requires Normalize(rows[..n]).Err?
    ensures Normalize(rows) == Normalize(rows[..n])
    decreases |rows| - n
  {
    if n < |rows| {
      assert rows[..n + 1][..n] == rows[..n];
      NormalizePrefixError(rows, n + 1);
    } else {
      assert rows[..n] == rows;
    }
  }

  /** The error names the first malformed row, with its arity and the expected one. */
  lemma NormalizeFirstError(rows: seq<seq<string>>, k: nat)
    requires k < |rows| && NormalizeRow(rows[k]).Err?
    requires forall j :: 0 <= j < k ==> NormalizeRow(rows[j]).Ok?
    ensures Normalize(rows) == Err(MalformedRow(rows[k], |rows[k]|, NumFields))
  {
    var prefix := rows[..k + 1];
    assert prefix[..k] == rows[..k];
    assert Normalize(rows[..k]).Ok?;
    NormalizePrefixError(rows, k + 1);
  }

  /** `_normalize_tuple_list`: the loop that builds the list of 3-field tuples. */
  method NormalizeTupleList(tupleList: seq<seq<string>>) returns (r: Result<seq<Entry>, PairsError>)
    ensures r == Normalize(tupleList)
  {
    var newTupleList: seq<Entry> := [];
    for i := 0 to |tupleList|
      invariant Normalize(tupleList[..i]) == Ok(newTupleList)
    {
      var tpl := tupleList[i];
      assert tupleList[..i + 1][..i] == tupleList[..i];
      var entry: Entry;
      if |tpl| != NumFields {
        if |tpl| == 2 {
          entry := Entry(tpl[0], tpl[1], "");
        } else {
          NormalizePrefixError(tupleList, i + 1);
          return Err(MalformedRow(tpl, |tpl|, NumFields));
        }
      } else {
        entry := Entry(tpl[0], tpl[1], tpl[2]);
      }
      newTupleList := newTupleList + [entry];
    }
    assert tupleList[..|tupleList|] == tupleList;
    r := Ok(newTupleList);
  }

  /** The stored list written back as 3-field tuples. */
  function FieldsOf(es: seq<Entry>): (rows: seq<seq<string>>)
    ensures |rows| == |es|
  {
    seq(|es|, i requires 0 <= i < |es| => es[i].Fields())
  }

  /** Normalising an already normalised list changes nothing. */
  lemma NormalizeIdempotent(es: seq<Entry>)
    ensures Normalize(FieldsOf(es)) == Ok(es)
  {
    var rows := FieldsOf(es);
    assert forall i :: 0 <= i < |rows| ==> NormalizeRow(rows[i]) == Ok(es[i]);
    var r := Normalize(rows);
    assert forall i :: 0 <= i < |es| ==> r.value[i] == es[i];
    assert r.value == es;
  }

  // ---------------------------------------------------------------------------
  // Column views and lookup maps

  /** `english_words`: field 0 of every tuple, in list order. */
  function EnglishColumn(es: seq<Entry>): (r: seq<string>)
    ensures |r| == |es| && forall i :: 0 <= i < |es| ==> r[i] == es[i].Fields()[0]
  {
    seq(|es|, i requires 0 <= i < |es| => es[i].english)
  }

  /** `translations`: field 1 of every tuple, in list order. */
  function TranslationColumn(es: seq<Entry>): (r: seq<string>)
    ensures |r| == |es| && forall i :: 0 <= i < |es| ==> r[i] == es[i].Fields()[1]
  {
    seq(|es|, i requires 0 <= i < |es| => es[i].translation)
  }

  /** The english words of the list (the keys of `translation_dict`). */
  function EnglishSet(es: seq<Entry>): set<string> {
    if es == [] then {} else EnglishSet(es[..|es| - 1]) + {es[|es| - 1].english}
  }

  /** The translations of the list (the keys of `reverse_translation_dict`). */
  function TranslationSet(es: seq<Entry>): set<string> {
    if es == [] then {} else TranslationSet(es[..|es| - 1]) + {es[|es| - 1].translation}
  }

  /** A word is in `EnglishSet` (`TranslationSet`) exactly when some tuple has it. */
  lemma {:induction false} SetsMembers(es: seq<Entry>)
    ensures forall e :: e in EnglishSet(es) <==> exists x :: x in es && x.english == e
    ensures forall t :: t in TranslationSet(es) <==> exists x :: x in es && x.translation == t
  {
    if es != [] {
      var init, last := es[..|es| - 1], es[|es| - 1];
      SetsMembers(init);
      assert forall y :: y in es <==> y in init || y == last by {
        assert es == init + [last];
      }
    }
  }

  /** No english word occurs twice, and no translation occurs twice. */
  ghost predicate UniqueKeys(es: seq<Entry>) {
    (forall i, j :: 0 <= i < j < |es| ==> es[i].english != es[j].english) &&
    (forall i, j :: 0 <= i < j < |es| ==> es[i].translation != es[j].translation)
  }

  lemma EnglishSetSnoc(init: seq<Entry>, x: Entry)
    ensures EnglishSet(init + [x]) == EnglishSet(init) + {x.english}
    ensures TranslationSet(init + [x]) == TranslationSet(init) + {x.translation}
  {
    assert (init + [x])[..|init|] == init;
  }

  /** `translation_dict`: `{x[0]: x[1] for x in data}`; a later tuple overwrites an earlier
      one with the same english word. */
  function ForwardMap(es: seq<Entry>): (m: map<string, string>)
    ensures m.Keys == EnglishSet(es)
  {
    if es == [] then map[]
    else
      var last := es[|es| - 1];
      EnglishSetSnoc(es[..|es| - 1], last);
      assert es == es[..|es| - 1] + [last];
      ForwardMap(es[..|es| - 1])[last.english := last.translation]
  }

  /** `reverse_translation_dict`: `{x[1]: x[0] for x in data}`, later tuples winning. */
  function ReverseMap(es: seq<Entry>): (m: map<string, string>)
    ensures m.Keys == TranslationSet(es)
  {
    if es == [] then map[]
    else
      var last := es[|es| - 1];
      EnglishSetSnoc(es[..|es| - 1], last);
      assert es == es[..|es| - 1] + [last];
      ReverseMap(es[..|es| - 1])[last.translation := last.english]
  }

  /** `extra_info`: `{x[0]: [x[2]] for x in data}`, later tuples winning. Every english word
      gets a one-element list, even when the extra field is empty. */
  function ExtraInfoMap(es: seq<Entry>): (m: map<string, seq<string>>)
    ensures m.Keys == EnglishSet(es)
  {
    if es == [] then map[]
    else
      var last := es[|es| - 1];
      EnglishSetSnoc(es[..|es| - 1], last);
      assert es == es[..|es| - 1] + [last];
      ExtraInfoMap(es[..|es| - 1])[last.english := [last.extra]]
  }

  /** With unique english words, every tuple is found under its english word. */
  lemma {:induction false} ForwardMapAt(es: seq<Entry>, i: nat)
    requires UniqueKeys(es) && i < |es|
    ensures es[i].english in ForwardMap(es) && ForwardMap(es)[es[i].english] == es[i].translation
    ensures ExtraInfoMap(es)[es[i].english] == [es[i].extra]
  {
    if i < |es| - 1 {
      var init := es[..|es| - 1];
      ForwardMapAt(init, i);
    }
  }

  /** With unique translations, every tuple is found under its translation. */
  lemma {:induction false} ReverseMapAt(es: seq<Entry>, i: nat)
    requires UniqueKeys(es) && i < |es|
    ensures es[i].translation in ReverseMap(es) && ReverseMap(es)[es[i].translation] == es[i].english
  {
    if i < |es| - 1 {
      var init := es[..|es| - 1];
      ReverseMapAt(init, i);
    }
  }

  /** Under uniqueness the two dictionaries are inverse to each other. */
  lemma MapsAreInverse(es: seq<Entry>)
    requires UniqueKeys(es)
    ensures forall e :: e in ForwardMap(es) ==>
      ForwardMap(es)[e] in ReverseMap(es) && ReverseMap(es)[ForwardMap(es)[e]] == e
    ensures forall t :: t in ReverseMap(es) ==>
      ReverseMap(es)[t] in ForwardMap(es) && ForwardMap(es)[ReverseMap(es)[t]] == t
  {
    SetsMembers(es);
    forall e | e in ForwardMap(es)
      ensures ForwardMap(es)[e] in ReverseMap(es) && ReverseMap(es)[ForwardMap(es)[e]] == e
    {
      var x :| x in es && x.english == e;
      var i :| 0 <= i < |es| && es[i] == x;
      ForwardMapAt(es, i);
      ReverseMapAt(es, i);
    }
    forall t | t in ReverseMap(es)
      ensures ReverseMap(es)[t] in ForwardMap(es) && ForwardMap(es)[ReverseMap(es)[t]] == t
    {
      var x :| x in es && x.translation == t;
      var i :| 0 <= i < |es| && es[i] == x;
      ForwardMapAt(es, i);
      ReverseMapAt(es, i);
    }
  }

  /** With unique english words, the translations are exactly the dictionary's values. */
  lemma ForwardMapValues(es: seq<Entry>)
    requires UniqueKeys(es)
    ensures ForwardMap(es).Values == TranslationSet(es)
  {
    MapsAreInverse(es);
    forall t | t in TranslationSet(es) ensures t in ForwardMap(es).Values {
      var e := ReverseMap(es)[t];
      assert ForwardMap(es)[e] == t;
    }
  }

  /** Index of the first tuple whose translation is `t`, or -1 (the scan of
      `remove_translated_word`). */
  function FirstTranslationIndex(es: seq<Entry>, t: string): (r: int)
    ensures -1 <= r < |es|
    ensures r == -1 <==> t !in TranslationSet(es)
    ensures 0 <= r ==> es[r].translation == t && forall j :: 0 <= j < r ==> es[j].translation != t
  {
    SetsMembers(es);
    if es == [] then -1
    else if es[0].translation == t then 0
    else
      var k := FirstTranslationIndex(es[1..], t);
      SetsMembers(es[1..]);
      assert forall y :: y in es <==> y == es[0] || y in es[1..];
      if k == -1 then -1 else k + 1
  }

  /** The list without its first tuple whose translation is `t` (unchanged when there is
      none): what `remove_translated_word` leaves behind. */
  function DropTranslation(es: seq<Entry>, t: string): (r: seq<Entry>)
    ensures |r| == if exists i :: 0 <= i < |es| && es[i].translation == t then |es| - 1 else |es|
    ensures forall e :: e in r ==> e in es
  {
    if es == [] then []
    else if es[0].translation == t then es[1..]
    else [es[0]] + DropTranslation(es[1..], t)
  }

  /** `DropTranslation` deletes exactly the first position that holds `t`. */
  lemma {:induction false} DropTranslationAt(es: seq<Entry>, t: string, i: nat)
    requires i < |es| && es[i].translation == t
    requires forall j :: 0 <= j < i ==> es[j].translation != t
    ensures DropTranslation(es, t) == es[..i] + es[i + 1..]
  {
    if i > 0 {
      var tail := es[1..];
      assert DropTranslation(tail, t) == tail[..i - 1] + tail[i..] by {
        DropTranslationAt(tail, t, i - 1);
      }
      assert es[..i] == [es[0]] + tail[..i - 1];
      assert es[i + 1..] == tail[i..];
    }
  }

  /** Without a tuple holding `t`, `DropTranslation` changes nothing. */
  lemma {:induction false} DropTranslationAbsent(es: seq<Entry>, t: string)
    requires forall j :: 0 <= j < |es| ==> es[j].translation != t
    ensures DropTranslation(es, t) == es
  {
    if es != [] {
      DropTranslationAbsent(es[1..], t);
      assert [es[0]] + es[1..] == es;
    }
  }

  // ---------------------------------------------------------------------------
  // Uniqueness checks

  ghost predicate Distinct(ws: seq<string>) {
    forall i, j :: 0 <= i < j < |ws| ==> ws[i] != ws[j]
  }

  function Elements(ws: seq<string>): set<string> {
    set w | w in ws
  }

  /** `_all_unique`: no word is lost when the list becomes a set, which is the case exactly
      when no word occurs twice. */
  function AllUnique(ws: seq<string>): (r: bool)
    ensures r <==> Distinct(ws)
  {
    ElementsSize(ws);
    |Elements(ws)| == |ws|
  }

  /** The set of a list is never larger than the list, and as large exactly when no word
      occurs twice. */
  lemma {:induction false} ElementsSize(ws: seq<string>)
    ensures |Elements(ws)| <= |ws|
    ensures |Elements(ws)| == |ws| <==> Distinct(ws)
  {
    if ws != [] {
      var rest := ws[1..];
      ElementsSize(rest);
      assert Elements(ws) == {ws[0]} + Elements(rest) by {
        assert forall w :: w in ws <==> w == ws[0] || w in rest;
      }
      if ws[0] in rest {
        var j :| 0 <= j < |rest| && rest[j] == ws[0];
        assert ws[0] == ws[j + 1];
        assert !Distinct(ws);
      } else {
        assert Distinct(ws) <==> Distinct(rest) by {
          if Distinct(rest) {
            forall i, j | 0 <= i < j < |ws| ensures ws[i] != ws[j] {
              if i > 0 {
                assert ws[i] == rest[i - 1] && ws[j] == rest[j - 1];
              } else {
                assert ws[j] == rest[j - 1];
              }
            }
          }
          if Distinct(ws) {
            forall i, j | 0 <= i < j < |rest| ensures rest[i] != rest[j] {
              assert rest[i] == ws[i + 1] && rest[j] == ws[j + 1];
            }
          }
        }
      }
    }
  }

  /** `_check_unique`: scans the list and fails on the first word already seen. */
  method CheckUnique(words: seq<string>) returns (r: Result<(), PairsError>)
    ensures r.Ok? <==> Distinct(words)
    ensures r.Ok? <==> AllUnique(words)
    ensures r.Err? ==> exists k :: 0 < k < |words| && words[k] in words[..k] &&
                                   Distinct(words[..k]) && r.error == Duplicated(words[k])
  {
    ElementsSize(words);
    var k := 1;
    while k < |words|
      invariant 1 <= k
      invariant words != [] ==> k <= |words| && Distinct(words[..k])
    {
      var w := words[k];
      if w in words[..k] {
        var i :| 0 <= i < k && words[i] == w;
        assert !Distinct(words);
        return Err(Duplicated(w));
      }
      var seen := words[..k + 1];
      assert Distinct(seen) by {
        forall i, j | 0 <= i < j < k + 1 ensures seen[i] != seen[j] {
          if j < k {
            assert seen[i] == words[..k][i] && seen[j] == words[..k][j];
          } else {
            assert words[..k][i] in words[..k];
          }
        }
      }
      k := k + 1;
    }
    assert words == [] || words[..k] == words;
    r := Ok(());
  }

  /** The check main.py makes on the record before any media work: english words, then
      translations, must be unique. */
  function CheckKeysUnique(es: seq<Entry>): (r: Result<(), PairsError>)
    ensures r.Ok? <==> UniqueKeys(es)
    ensures !Distinct(EnglishColumn(es)) ==> r == Err(WordsNotUnique)
  {
    ElementsSize(EnglishColumn(es));
    ElementsSize(TranslationColumn(es));
    if !AllUnique(EnglishColumn(es)) then Err(WordsNotUnique)
    else if !AllUnique(TranslationColumn(es)) then Err(TranslationsNotUnique)
    else Ok(())
  }

  // ---------------------------------------------------------------------------
  // The record itself

  /** `WordTranslationPairs`: the mutable list of normalised tuples. */
  class WordTranslationPairs {
    /** `_tuple_list`, exposed as the `data` property. */
    var data: seq<Entry>

    constructor (entries: seq<Entry>)
      ensures data == entries
    {
      data := entries;
    }

    /** `__init__`: normalises the rows and stores them, or raises. */
    static method Create(tupleList: seq<seq<string>>) returns (r: Result<WordTranslationPairs, PairsError>)
      ensures r.Ok? <==> Normalize(tupleList).Ok?
      ensures r.Ok? ==> fresh(r.value) && r.value.data == Normalize(tupleList).value
      ensures r.Err? ==> r.error == Normalize(tupleList).error
    {
      var normalized := NormalizeTupleList(tupleList);
      match normalized
      case Err(e) =>
        r := Err(e);
      case Ok(entries) =>
        var pairs := new WordTranslationPairs(entries);
        r := Ok(pairs);
    }

    function EnglishWords(): seq<string>
      reads this
    {
      EnglishColumn(data)
    }

    function Translations(): seq<string>
      reads this
    {
      TranslationColumn(data)
    }

    function TranslationDict(): map<string, string>
      reads this
    {
      ForwardMap(data)
    }

    function ReverseTranslationDict(): map<string, string>
      reads this
    {
      ReverseMap(data)
    }

    function ExtraInfo(): map<string, seq<string>>
      reads this
    {
      ExtraInfoMap(data)
    }

    /** `get_translation`: a KeyError unless the english word is stored. */
    function GetTranslation(englishWord: string): (r: Result<string, PairsError>)
      reads this
      ensures r.Ok? <==> englishWord in EnglishSet(data)
      ensures r.Err? ==> r.error == KeyError(englishWord)
      ensures UniqueKeys(data) ==> forall i :: 0 <= i < |data| && data[i].english == englishWord ==>
        r == Ok(data[i].translation)
    {
      assert UniqueKeys(data) ==> forall i :: 0 <= i < |data| && data[i].english == englishWord ==>
        englishWord in ForwardMap(data) && ForwardMap(data)[englishWord] == data[i].translation by {
        if UniqueKeys(data) {
          forall i | 0 <= i < |data| && data[i].english == englishWord
            ensures englishWord in ForwardMap(data) && ForwardMap(data)[englishWord] == data[i].translation
          {
            ForwardMapAt(data, i);
          }
        }
      }
      var m := TranslationDict();
      if englishWord in m then Ok(m[englishWord]) else Err(KeyError(englishWord))
    }

    /** `get_english`: a KeyError unless the translation is stored. */
    function GetEnglish(translatedWord: string): (r: Result<string, PairsError>)
      reads this
      ensures r.Ok? <==> translatedWord in TranslationSet(data)
      ensures r.Err? ==> r.error == KeyError(translatedWord)
      ensures UniqueKeys(data) ==> forall i :: 0 <= i < |data| && data[i].translation == translatedWord ==>
        r == Ok(data[i].english)
    {
      assert UniqueKeys(data) ==> forall i :: 0 <= i < |data| && data[i].translation == translatedWord ==>
        translatedWord in ReverseMap(data) && ReverseMap(data)[translatedWord] == data[i].english by {
        if UniqueKeys(data) {
          forall i | 0 <= i < |data| && data[i].translation == translatedWord
            ensures translatedWord in ReverseMap(data) && ReverseMap(data)[translatedWord] == data[i].english
          {
            ReverseMapAt(data, i);
          }
        }
      }
      var m := ReverseTranslationDict();
      if translatedWord in m then Ok(m[translatedWord]) else Err(KeyError(translatedWord))
    }

    /** `remove_translated_word`: deletes the first tuple with that translation, or raises
        and leaves the list alone. */
    method RemoveTranslatedWord(translatedWord: string) returns (r: Result<(), PairsError>)
      modifies this
      ensures r.Ok? <==> translatedWord in TranslationSet(old(data))
      ensures r.Err? ==> r == Err(TranslationNotFound(translatedWord)) && data == old(data)
      ensures r.Ok? ==> data == DropTranslation(old(data), translatedWord)
    {
      var index := -1;
      var i := 0;
      while i < |data|
        invariant 0 <= i <= |data|
        invariant forall j :: 0 <= j < i ==> data[j].translation != translatedWord
      {
        if data[i].translation == translatedWord {
          index := i;
          break;
        }
        i := i + 1;
      }
      SetsMembers(data);
      if index == -1 {
        return Err(TranslationNotFound(translatedWord));
      }
      DropTranslationAt(data, translatedWord, index);
      data := data[..index] + data[index + 1..];
      r := Ok(());
    }
  }

  /** With unique keys, looking a translation's english word up again gives the
      translation back, and the other way round. */
  lemma LookupRoundTrip(pairs: WordTranslationPairs, t: string, e: string)
    requires UniqueKeys(pairs.data)
    ensures t in TranslationSet(pairs.data) ==>
      pairs.GetEnglish(t).Ok? && pairs.GetTranslation(pairs.GetEnglish(t).value) == Ok(t)
    ensures e in EnglishSet(pairs.data) ==>
      pairs.GetTranslation(e).Ok? && pairs.GetEnglish(pairs.GetTranslation(e).value) == Ok(e)
  {
    MapsAreInverse(pairs.data);
  }

  // ---------------------------------------------------------------------------
  // Removing words from the record

  /** The list without the tuples whose english word is in `words`, order kept. */
  function DropEnglish(es: seq<Entry>, words: set<string>): (r: seq<Entry>)
    ensures |r| <= |es|
    ensures forall x {:trigger x in r} :: x in r <==> x in es && x.english !in words
  {
    if es == [] then []
    else
      var last := es[|es| - 1];
      var init := es[..|es| - 1];
      assert forall y :: y in es <==> y in init || y == last by {
        assert es == init + [last];
      }
      var kept := DropEnglish(init, words);
      if last.english in words then kept else kept + [last]
  }

  /** Dropping tuples keeps the english words and the translations unique. */
  lemma {:induction false} DropEnglishUnique(es: seq<Entry>, words: set<string>)
    requires UniqueKeys(es)
    ensures UniqueKeys(DropEnglish(es, words))
  {
    if es != [] {
      var last := es[|es| - 1];
      var init := es[..|es| - 1];
      assert UniqueKeys(init) by {
        assert forall k :: 0 <= k < |init| ==> init[k] == es[k];
      }
      DropEnglishUnique(init, words);
      var kept := DropEnglish(init, words);
      if last.english !in words {
        forall y | y in kept
          ensures y.english != last.english && y.translation != last.translation
        {
          var k :| 0 <= k < |init| && init[k] == y;
          assert es[k] == y;
        }
        UniqueSnoc(kept, last);
      }
    }
  }

  /** Appending a tuple that shares no key with the list keeps the keys unique. */
  lemma UniqueSnoc(es: seq<Entry>, x: Entry)
    requires UniqueKeys(es)
    requires forall y :: y in es ==> y.english != x.english && y.translation != x.translation
    ensures UniqueKeys(es + [x])
  {
    var s := es + [x];
    forall i, j | 0 <= i < j < |s|
      ensures s[i].english != s[j].english && s[i].translation != s[j].translation
    {
      if j == |es| {
        assert s[i] in es;
      } else {
        assert s[i] == es[i] && s[j] == es[j];
      }
    }
  }

  /** The english words left are the old ones minus the dropped ones. */
  lemma DropEnglishWords(es: seq<Entry>, words: set<string>)
    ensures EnglishSet(DropEnglish(es, words)) == EnglishSet(es) - words
  {
    var r := DropEnglish(es, words);
    SetsMembers(es);
    SetsMembers(r);
    forall e | e in EnglishSet(es) - words ensures e in EnglishSet(r) {
      var x :| x in es && x.english == e;
      assert x in r;
    }
  }

  lemma {:induction false} DropEnglishNothing(es: seq<Entry>, words: set<string>)
    requires forall x :: x in es ==> x.english !in words
    ensures DropEnglish(es, words) == es
  {
    if es != [] {
      var init := es[..|es| - 1];
      DropEnglishNothing(init, words);
      assert es == init + [es[|es| - 1]];
    }
  }

  /** Dropping twice is dropping the union once. */
  lemma {:induction false} DropEnglishTwice(es: seq<Entry>, a: set<string>, b: set<string>)
    ensures DropEnglish(DropEnglish(es, a), b) == DropEnglish(es, a + b)
  {
    if es != [] {
      var init := es[..|es| - 1];
      DropEnglishTwice(init, a, b);
      var once := DropEnglish(init, a);
      if es[|es| - 1].english !in a {
        assert (once + [es[|es| - 1]])[..|once|] == once;
      }
    }
  }

  /** With unique english words, deleting the tuple at `i` is dropping its english word. */
  lemma {:induction false} DropOne(es: seq<Entry>, i: nat)
    requires UniqueKeys(es) && i < |es|
    ensures es[..i] + es[i + 1..] == DropEnglish(es, {es[i].english})
  {
    var e := es[i].english;
    var last := es[|es| - 1];
    var init := es[..|es| - 1];
    if i == |es| - 1 {
      assert DropEnglish(init, {e}) == init by {
        forall x | x in init ensures x.english !in {e} {
          var k :| 0 <= k < |init| && init[k] == x;
          assert es[k] == x;
        }
        DropEnglishNothing(init, {e});
      }
      assert es[..i] + es[i + 1..] == init;
    } else {
      assert last.english != e;
      assert init[..i] + init[i + 1..] == DropEnglish(init, {e}) by {
        assert init[i] == es[i];
        assert UniqueKeys(init) by {
          assert forall k :: 0 <= k < |init| ==> init[k] == es[k];
        }
        DropOne(init, i);
      }
      assert es[..i] + es[i + 1..] == (init[..i] + init[i + 1..]) + [last] by {
        assert es[..i] == init[..i];
        assert es[i + 1..] == init[i + 1..] + [last];
      }
    }
  }

  /** Adding a key outside `words` commutes with removing `words`. */
  lemma UpdateOutside(m: map<string, string>, words: set<string>, k: string, v: string)
    requires k !in words
    ensures (m - words)[k := v] == m[k := v] - words
  {
  }

  /** Dropping tuples removes exactly those keys from `translation_dict`. */
  lemma {:induction false} ForwardMapDrop(es: seq<Entry>, words: set<string>)
    ensures ForwardMap(DropEnglish(es, words)) == ForwardMap(es) - words
  {
    if es != [] {
      var init := es[..|es| - 1];
      var last := es[|es| - 1];
      ForwardMapDrop(init, words);
      var kept := DropEnglish(init, words);
      assert ForwardMap(es) == ForwardMap(init)[last.english := last.translation];
      if last.english in words {
        assert DropEnglish(es, words) == kept;
        assert ForwardMap(es) - words == ForwardMap(init) - words;
      } else {
        assert DropEnglish(es, words) == kept + [last];
        assert (kept + [last])[..|kept|] == kept;
        assert ForwardMap(kept + [last]) == ForwardMap(kept)[last.english := last.translation];
        UpdateOutside(ForwardMap(init), words, last.english, last.translation);
      }
    }
  }

  /** The translations of the given english words, as `translation_dict` has them. */
  function TranslationsOf(es: seq<Entry>, words: set<string>): set<string> {
    var m := ForwardMap(es);
    set e | e in words && e in m :: m[e]
  }

  /** With unique keys, a tuple's translation is the translation of no other english
      word. */
  lemma TranslationOfOthers(es: seq<Entry>, words: set<string>, x: Entry)
    requires UniqueKeys(es) && x in es && x.english !in words
    ensures x.translation !in TranslationsOf(es, words)
  {
    var m := ForwardMap(es);
    var i :| 0 <= i < |es| && es[i] == x;
    SetsMembers(es);
    forall e | e in words && e in m ensures m[e] != x.translation {
      var y :| y in es && y.english == e;
      var j :| 0 <= j < |es| && es[j] == y;
      ForwardMapAt(es, j);
      assert es[j].english != es[i].english;
    }
  }

  /** The translations of a single tuple's english word are its translation. */
  lemma TranslationsOfOne(es: seq<Entry>, i: nat)
    requires UniqueKeys(es) && i < |es|
    ensures TranslationsOf(es, {es[i].english}) == {es[i].translation}
  {
    ForwardMapAt(es, i);
    var m := ForwardMap(es);
    assert m[es[i].english] == es[i].translation;
    assert forall e :: e in {es[i].english} && e in m ==> m[e] == es[i].translation;
  }

  /** With unique keys, dropping english words drops exactly their translations. */
  lemma DropEnglishTranslations(es: seq<Entry>, words: set<string>)
    requires UniqueKeys(es)
    ensures TranslationSet(DropEnglish(es, words)) == TranslationSet(es) - TranslationsOf(es, words)
  {
    var r := DropEnglish(es, words);
    SetsMembers(es);
    SetsMembers(r);
    forall t | t in TranslationSet(r) ensures t in TranslationSet(es) - TranslationsOf(es, words) {
      var x :| x in r && x.translation == t;
      TranslationOfOthers(es, words, x);
    }
    forall t | t in TranslationSet(es) - TranslationsOf(es, words) ensures t in TranslationSet(r) {
      var x :| x in es && x.translation == t;
      var i :| 0 <= i < |es| && es[i] == x;
      ForwardMapAt(es, i);
      assert x.english !in words;
      assert x in r;
    }
  }

  /** The english words and the translations hold the same words as the key sets. */
  lemma ColumnElements(es: seq<Entry>)
    ensures Elements(EnglishColumn(es)) == EnglishSet(es)
    ensures Elements(TranslationColumn(es)) == TranslationSet(es)
  {
    var ec := EnglishColumn(es);
    var tc := TranslationColumn(es);
    SetsMembers(es);
    forall e | e in Elements(ec) ensures e in EnglishSet(es) {
      var i :| 0 <= i < |ec| && ec[i] == e;
      assert es[i] in es;
    }
    forall e | e in EnglishSet(es) ensures e in Elements(ec) {
      var x :| x in es && x.english == e;
      var i :| 0 <= i < |es| && es[i] == x;
      assert ec[i] == e;
    }
    forall t | t in Elements(tc) ensures t in TranslationSet(es) {
      var i :| 0 <= i < |tc| && tc[i] == t;
      assert es[i] in es;
    }
    forall t | t in TranslationSet(es) ensures t in Elements(tc) {
      var x :| x in es && x.translation == t;
      var i :| 0 <= i < |es| && es[i] == x;
      assert tc[i] == t;
    }
  }

  /** With unique keys, each key set has as many members as the list has tuples. */
  lemma UniqueSizes(es: seq<Entry>)
    requires UniqueKeys(es)
    ensures |EnglishSet(es)| == |es| && |TranslationSet(es)| == |es|
  {
    var ec := EnglishColumn(es);
    var tc := TranslationColumn(es);
    ColumnElements(es);
    ElementsSize(ec);
    ElementsSize(tc);
  }

  /** Deleting the tuple that `remove_translated_word` finds keeps the record consistent:
      one tuple fewer, its english word and translation gone from both dictionaries, the
      rest untouched, and the keys still unique (so the dictionaries stay inverse). */
  lemma RemovalConsistency(es: seq<Entry>, t: string)
    requires UniqueKeys(es) && t in TranslationSet(es)
    ensures var i := FirstTranslationIndex(es, t);
            var rest := DropTranslation(es, t);
            && |rest| == |es| - 1
            && UniqueKeys(rest)
            && ForwardMap(rest) == ForwardMap(es) - {es[i].english}
            && TranslationSet(rest) == TranslationSet(es) - {t}
            && t !in ReverseMap(rest)
  {
    var i := FirstTranslationIndex(es, t);
    var e := es[i].english;
    var rest := DropTranslation(es, t);
    assert rest == DropEnglish(es, {e}) && |rest| == |es| - 1 by {
      DropTranslationAt(es, t, i);
      DropOne(es, i);
    }
    assert UniqueKeys(rest) by {
      DropEnglishUnique(es, {e});
    }
    assert ForwardMap(rest) == ForwardMap(es) - {e} by {
      ForwardMapDrop(es, {e});
    }
    assert TranslationSet(rest) == TranslationSet(es) - {t} by {
      DropEnglishTranslations(es, {e});
      TranslationsOfOne(es, i);
    }
  }
}
