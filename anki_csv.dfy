/** Rows of the Anki import file (anki_import_csv.py). The rows of a valid input form a
    set: the source yields them in dictionary order, which it leaves unspecified. */
module AnkiCsv {
  import opened Wrappers
  import Paths

  /** JPEG_FORMAT, `<img src="%s">`, on either side of its placeholder. */
  const ImgOpen: string := "<img src=\""
  const ImgClose: string := "\">"

  /** MP3_FORMAT, `[sound:%s]`, on either side of its placeholder. */
  const SoundOpen: string := "[sound:"
  const SoundClose: string := "]"

  /** `_img_format`: the image tag for a file, naming only its base name. */
  function ImgFormat(fullFilename: string): (tag: string)
    ensures |tag| == |ImgOpen| + |Paths.Basename(fullFilename)| + |ImgClose|
    ensures tag[..|ImgOpen|] == ImgOpen && tag[|tag| - |ImgClose|..] == ImgClose
    ensures tag[|ImgOpen|..|tag| - |ImgClose|] == Paths.Basename(fullFilename)
    ensures Paths.Sep !in tag[|ImgOpen|..|tag| - |ImgClose|]
  {
    ImgOpen + Paths.Basename(fullFilename) + ImgClose
  }

  /** `_mp3_format`: the sound tag for a file, naming only its base name. */
  function Mp3Format(fullFilename: string): (tag: string)
    ensures |tag| == |SoundOpen| + |Paths.Basename(fullFilename)| + |SoundClose|
    ensures tag[..|SoundOpen|] == SoundOpen && tag[|tag| - |SoundClose|..] == SoundClose
    ensures tag[|SoundOpen|..|tag| - |SoundClose|] == Paths.Basename(fullFilename)
    ensures Paths.Sep !in tag[|SoundOpen|..|tag| - |SoundClose|]
  {
    SoundOpen + Paths.Basename(fullFilename) + SoundClose
  }

  /** Two tags are equal exactly when the files have the same base name, and an image tag
      is never a sound tag. */
  lemma TagsNameTheFile(p: string, q: string)
    ensures ImgFormat(p) == ImgFormat(q) <==> Paths.Basename(p) == Paths.Basename(q)
    ensures Mp3Format(p) == Mp3Format(q) <==> Paths.Basename(p) == Paths.Basename(q)
    ensures ImgFormat(p) != Mp3Format(q)
  {
    var bp, bq := Paths.Basename(p), Paths.Basename(q);
    if ImgFormat(p) == ImgFormat(q) {
      assert ImgFormat(p)[|ImgOpen|..|ImgOpen| + |bp|] == bp;
      assert ImgFormat(q)[|ImgOpen|..|ImgOpen| + |bq|] == bq;
    }
    if Mp3Format(p) == Mp3Format(q) {
      assert Mp3Format(p)[|SoundOpen|..|SoundOpen| + |bp|] == bp;
      assert Mp3Format(q)[|SoundOpen|..|SoundOpen| + |bq|] == bq;
    }
    assert ImgFormat(p)[0] == '<' && Mp3Format(q)[0] == '[';
  }

  /** A tag does not depend on the directory the file is in; for a plain file name it
      wraps the name itself. */
  lemma TagsIgnoreDirectory(dir: string, name: string)
    ensures ImgFormat(Paths.Join(dir, name)) == ImgFormat(name)
    ensures Mp3Format(Paths.Join(dir, name)) == Mp3Format(name)
    ensures Paths.Sep !in name ==> ImgFormat(name) == ImgOpen + name + ImgClose
    ensures Paths.Sep !in name ==> Mp3Format(name) == SoundOpen + name + SoundClose
  {
    Paths.BasenameOfJoin(dir, name);
    if Paths.Sep !in name {
      Paths.BasenameOfPlainName(name);
    }
  }

  /** The ValueErrors of `_validate_inputs`, in the order it checks for them. */
  datatype CsvError =
    | ImageSize(expected: nat, actual: nat)
    | AudioSize(expected: nat, actual: nat)
    | ExtraSize(expected: nat, actual: nat)
    | ImageKeys
    | ExtraKeys
    | AudioKeys

  /** The optional `extra_info` argument: absent (`None`) or a dictionary. */
  type ExtraInfo = Option<map<string, seq<string>>>

  /** Python truthiness of `extra_info`: present and non-empty. */
  predicate Truthy(extra: ExtraInfo)
    ensures Truthy(extra) <==> extra != None && extra.value != map[]
  {
    extra.Some? && |extra.value| > 0
  }

  /** A finite subset as large as its superset is the superset. */
  lemma SubsetOfSameSize(a: set<string>, b: set<string>)
    requires a <= b && |a| == |b|
    ensures a == b
  {
    assert b == a + (b - a);
    assert |b| == |a| + |b - a|;
    assert b - a == {};
  }

  /** What a valid input is: the english words are the image keys, the translations are
      the audio keys with no translation shared by two words, and (when extra info is
      truthy) every english word has extra info. */
  predicate Consistent(translationDict: map<string, string>, imageDict: map<string, string>,
                       audioDict: map<string, string>, extra: ExtraInfo)
  {
    && imageDict.Keys == translationDict.Keys
    && audioDict.Keys == translationDict.Values
    && |audioDict| == |translationDict|
    && (Truthy(extra) ==> extra.value.Keys == translationDict.Keys)
  }

  /** `_validate_inputs`: it accepts exactly the consistent inputs. The checks run in the
      order image size, audio size, extra-info size, image keys, extra-info keys, audio
      keys, and the first that fails gives the error. */
  function ValidateInputs(translationDict: map<string, string>, imageDict: map<string, string>,
                          audioDict: map<string, string>, extra: ExtraInfo): (r: Result<(), CsvError>)
    ensures r.Ok? <==> Consistent(translationDict, imageDict, audioDict, extra)
    ensures |imageDict| != |translationDict| ==> r == Err(ImageSize(|translationDict|, |imageDict|))
    ensures |imageDict| == |translationDict| && |audioDict| != |translationDict| ==>
              r == Err(AudioSize(|translationDict|, |audioDict|))
    ensures var n := |translationDict|;
      |imageDict| == n && |audioDict| == n && Truthy(extra) && |extra.value| != n ==>
        r == Err(ExtraSize(n, |extra.value|))
    ensures var n := |translationDict|;
      |imageDict| == n && |audioDict| == n && (Truthy(extra) ==> |extra.value| == n) &&
      imageDict.Keys != translationDict.Keys ==>
        r == Err(ImageKeys)
    ensures var n := |translationDict|;
      |imageDict| == n && |audioDict| == n && (Truthy(extra) ==> |extra.value| == n) &&
      imageDict.Keys == translationDict.Keys && Truthy(extra) && !(extra.value.Keys <= translationDict.Keys) ==>
        r == Err(ExtraKeys)
    ensures var n := |translationDict|;
      |imageDict| == n && |audioDict| == n && (Truthy(extra) ==> |extra.value| == n) &&
      imageDict.Keys == translationDict.Keys && (Truthy(extra) ==> extra.value.Keys <= translationDict.Keys) &&
      translationDict.Values != audioDict.Keys ==>
        r == Err(AudioKeys)
  {
    var expectedSize := |translationDict|;
    if |imageDict| != expectedSize then Err(ImageSize(expectedSize, |imageDict|))
    else if |audioDict| != expectedSize then Err(AudioSize(expectedSize, |audioDict|))
    else if Truthy(extra) && |extra.value| != expectedSize then Err(ExtraSize(expectedSize, |extra.value|))
    else if imageDict.Keys != translationDict.Keys then Err(ImageKeys)
    else if Truthy(extra) && !(extra.value.Keys <= translationDict.Keys) then Err(ExtraKeys)
    else if translationDict.Values != audioDict.Keys then Err(AudioKeys)
    else
      assert Truthy(extra) ==> extra.value.Keys == translationDict.Keys by {
        if Truthy(extra) {
          SubsetOfSameSize(extra.value.Keys, translationDict.Keys);
        }
      }
      Ok(())
  }

  /** One output row. */
  type Row = seq<string>

  /** `extra_info.get(eng, [])` when extra info is truthy, nothing otherwise. */
  function ExtraFields(extra: ExtraInfo, eng: string): seq<string> {
    if Truthy(extra) && eng in extra.value then extra.value[eng] else []
  }

  /** The row of one `(eng, trans)` entry of the translation dictionary. */
  function MakeRow(translationDict: map<string, string>, imageDict: map<string, string>,
                   audioDict: map<string, string>, extra: ExtraInfo, eng: string): (row: Row)
    requires eng in translationDict && eng in imageDict && translationDict[eng] in audioDict
    ensures |row| >= 4 && row[3] == eng && row[1] == translationDict[eng]
  {
    var trans := translationDict[eng];
    [ImgFormat(imageDict[eng]), trans, Mp3Format(audioDict[trans]), eng] + ExtraFields(extra, eng)
  }

  /** The fields of one row, as `make_csv_format` lays them out. */
  lemma MakeRowShape(translationDict: map<string, string>, imageDict: map<string, string>,
                     audioDict: map<string, string>, extra: ExtraInfo, eng: string)
    requires eng in translationDict && eng in imageDict && translationDict[eng] in audioDict
    ensures var row := MakeRow(translationDict, imageDict, audioDict, extra, eng);
      && |row| >= 4
      && row[3] == eng && row[1] == translationDict[eng]
      && row[0] == ImgFormat(imageDict[eng])
      && row[2] == Mp3Format(audioDict[row[1]])
      && row[4..] == ExtraFields(extra, eng)
  {
    var head := [ImgFormat(imageDict[eng]), translationDict[eng], Mp3Format(audioDict[translationDict[eng]]), eng];
    assert MakeRow(translationDict, imageDict, audioDict, extra, eng) == head + ExtraFields(extra, eng);
    assert (head + ExtraFields(extra, eng))[4..] == ExtraFields(extra, eng);
  }

  /** Rows that are told apart by their english word, one for each word, are as many as
      the words. */
  lemma {:induction false} RowsPerWord(words: set<string>, rows: set<Row>)
    requires forall row :: row in rows ==> |row| >= 4 && row[3] in words
    requires forall w :: w in words ==> exists row :: row in rows && row[3] == w
    requires forall r1, r2 :: r1 in rows && r2 in rows && r1[3] == r2[3] ==> r1 == r2
    ensures |rows| == |words|
    decreases words
  {
    if words != {} {
      var w :| w in words;
      var row :| row in rows && row[3] == w;
      RowsPerWord(words - {w}, rows - {row});
    } else {
      assert forall row :: row !in rows;
      assert rows == {};
    }
  }

  /** The rows of a valid input. */
  function RowsOf(translationDict: map<string, string>, imageDict: map<string, string>,
                  audioDict: map<string, string>, extra: ExtraInfo): (rows: set<Row>)
    requires imageDict.Keys == translationDict.Keys && audioDict.Keys == translationDict.Values
    ensures forall row :: row in rows ==>
      |row| >= 4 && row[3] in translationDict && row[1] == translationDict[row[3]]
  {
    assert forall eng :: eng in translationDict ==> translationDict[eng] in translationDict.Values;
    set eng | eng in translationDict :: MakeRow(translationDict, imageDict, audioDict, extra, eng)
  }

  /** The layout `make_csv_format` promises for a row: image tag, translation, sound tag,
      english word, then the word's extra info. */
  predicate RowFor(translationDict: map<string, string>, imageDict: map<string, string>,
                   audioDict: map<string, string>, extra: ExtraInfo, row: Row)
  {
    && |row| >= 4
    && row[3] in translationDict && row[3] in imageDict
    && row[1] == translationDict[row[3]] && row[1] in audioDict
    && row[0] == ImgFormat(imageDict[row[3]])
    && row[2] == Mp3Format(audioDict[row[1]])
    && row[4..] == ExtraFields(extra, row[3])
  }

  /** Every row of a valid input is the row of its own english word. */
  lemma RowsOfWord(translationDict: map<string, string>, imageDict: map<string, string>,
                   audioDict: map<string, string>, extra: ExtraInfo)
    requires imageDict.Keys == translationDict.Keys && audioDict.Keys == translationDict.Values
    ensures forall row :: row in RowsOf(translationDict, imageDict, audioDict, extra) ==>
      |row| >= 4 && row[3] in translationDict && row == MakeRow(translationDict, imageDict, audioDict, extra, row[3])
  {
    forall row | row in RowsOf(translationDict, imageDict, audioDict, extra)
      ensures |row| >= 4 && row[3] in translationDict && row == MakeRow(translationDict, imageDict, audioDict, extra, row[3])
    {
      var eng :| eng in translationDict && row == MakeRow(translationDict, imageDict, audioDict, extra, eng);
      assert translationDict[eng] in translationDict.Values;
    }
  }

  /** Every row of a valid input has the promised layout. */
  lemma RowShape(translationDict: map<string, string>, imageDict: map<string, string>,
                 audioDict: map<string, string>, extra: ExtraInfo)
    requires imageDict.Keys == translationDict.Keys && audioDict.Keys == translationDict.Values
    ensures forall row :: row in RowsOf(translationDict, imageDict, audioDict, extra) ==>
      RowFor(translationDict, imageDict, audioDict, extra, row)
  {
    RowsOfWord(translationDict, imageDict, audioDict, extra);
    forall row | row in RowsOf(translationDict, imageDict, audioDict, extra)
      ensures RowFor(translationDict, imageDict, audioDict, extra, row)
    {
      assert translationDict[row[3]] in translationDict.Values;
      MakeRowShape(translationDict, imageDict, audioDict, extra, row[3]);
    }
  }

  /** A valid input has a row for every english word. */
  lemma RowsCover(translationDict: map<string, string>, imageDict: map<string, string>,
                  audioDict: map<string, string>, extra: ExtraInfo)
    requires imageDict.Keys == translationDict.Keys && audioDict.Keys == translationDict.Values
    ensures forall eng :: eng in translationDict ==>
      exists row :: row in RowsOf(translationDict, imageDict, audioDict, extra) && |row| >= 4 && row[3] == eng
  {
    var rows := RowsOf(translationDict, imageDict, audioDict, extra);
    forall eng | eng in translationDict
      ensures exists row :: row in rows && |row| >= 4 && row[3] == eng
    {
      assert translationDict[eng] in translationDict.Values;
      MakeRowShape(translationDict, imageDict, audioDict, extra, eng);
      assert MakeRow(translationDict, imageDict, audioDict, extra, eng) in rows;
    }
  }

  /** A valid input has exactly one row per english word. */
  lemma RowsOfCount(translationDict: map<string, string>, imageDict: map<string, string>,
                    audioDict: map<string, string>, extra: ExtraInfo)
    requires imageDict.Keys == translationDict.Keys && audioDict.Keys == translationDict.Values
    ensures |RowsOf(translationDict, imageDict, audioDict, extra)| == |translationDict|
  {
    var rows := RowsOf(translationDict, imageDict, audioDict, extra);
    RowsCover(translationDict, imageDict, audioDict, extra);
    RowsOfWord(translationDict, imageDict, audioDict, extra);
    assert forall r1, r2 :: r1 in rows && r2 in rows && r1[3] == r2[3] ==> r1 == r2;
    RowsPerWord(translationDict.Keys, rows);
  }

  /** `make_csv_format`: validates, then gives one row per entry of the translation
      dictionary: image tag, translation, sound tag, english word, then the word's extra
      info when extra info is truthy. An invalid input gives no rows at all. */
  function MakeCsvFormat(translationDict: map<string, string>, imageDict: map<string, string>,
                         audioDict: map<string, string>, extra: ExtraInfo): (r: Result<set<Row>, CsvError>)
    ensures r.Ok? <==> ValidateInputs(translationDict, imageDict, audioDict, extra).Ok?
    ensures r.Err? ==> r.error == ValidateInputs(translationDict, imageDict, audioDict, extra).error
    ensures r.Ok? ==> |r.value| == |translationDict|
    ensures r.Ok? ==> forall eng :: eng in translationDict ==> exists row :: row in r.value && |row| >= 4 && row[3] == eng
    ensures r.Ok? ==> forall row :: row in r.value ==> RowFor(translationDict, imageDict, audioDict, extra, row)
    ensures r.Ok? && !Truthy(extra) ==> forall row :: row in r.value ==> |row| == 4
  {
    match ValidateInputs(translationDict, imageDict, audioDict, extra)
    case Err(e) => Err(e)
    case Ok(_) =>
      var rows := RowsOf(translationDict, imageDict, audioDict, extra);
      RowsCover(translationDict, imageDict, audioDict, extra);
      RowsOfCount(translationDict, imageDict, audioDict, extra);
      RowShape(translationDict, imageDict, audioDict, extra);
      Ok(rows)
  }
}
