/** The media bookkeeping of `main` (main.py): where each word's image and sound file
    go, which of them still have to be fetched, and how words whose media could not be
    fetched are dropped from the flashcards. The file system enters only as the set of
    paths `os.path.isfile` accepts. */
module MediaPlan {
  import opened Wrappers
  import Paths
  import opened WordPairs
  import AnkiCsv

  /** IMAGE_FILENAME_FORMAT, `{english}.png`, after its placeholder. */
  const ImageExt: string := ".png"

  /** AUDIO_FILENAME_FORMAT, `{translation}.mp3`, after its placeholder. */
  const AudioExt: string := ".mp3"

  /** The dictionaries `filenames_to_write_imgs` and `filenames_to_write_auds`: each word
      maps to `os.path.join(output_dir, word + ext)`; every word gets an entry. */
  function Targets(outputDir: string, words: seq<string>, ext: string): (m: map<string, string>)
    ensures m.Keys == Elements(words)
  {
    map w | w in words :: Paths.Join(outputDir, w + ext)
  }

  /** The file a word's entry names has the word's own file name as its base name. */
  lemma TargetBasename(outputDir: string, words: seq<string>, ext: string, w: string)
    requires w in words
    ensures w in Targets(outputDir, words, ext)
    ensures Paths.Basename(Targets(outputDir, words, ext)[w]) == Paths.Basename(w + ext)
  {
    Paths.BasenameOfJoin(outputDir, w + ext);
  }

  /** A dictionary of file names that `remove_existing_filenames` changes in place. */
  class FileMap {
    var files: map<string, string>

    constructor (m: map<string, string>)
      ensures files == m
    {
      files := m;
    }
  }

  /** Whether `remove_existing_filenames` keeps a file name: no file with its base name
      is in the target directory. */
  predicate StillMissing(fullFilename: string, targetDir: string, isFile: set<string>)
    ensures !StillMissing(fullFilename, targetDir, isFile) ==>
      exists path :: path in isFile && Paths.Basename(path) == Paths.Basename(fullFilename)
  {
    Paths.BasenameOfJoin(targetDir, Paths.Basename(fullFilename));
    Paths.BasenameOfPlainName(Paths.Basename(fullFilename));
    Paths.Join(targetDir, Paths.Basename(fullFilename)) !in isFile
  }

  /** What `remove_existing_filenames` leaves: the entries whose file is not yet in the
      target directory, with their file names unchanged. */
  function NotYetPresent(m: map<string, string>, targetDir: string, isFile: set<string>): (r: map<string, string>)
    ensures r.Keys <= m.Keys
    ensures forall k :: k in r ==> r[k] == m[k]
    ensures forall k :: k in m ==> (k in r <==> StillMissing(m[k], targetDir, isFile))
  {
    map k | k in m && StillMissing(m[k], targetDir, isFile) :: m[k]
  }

  /** For the dictionaries `main` builds, a word is left to fetch exactly when its own
      target file does not exist yet (a word with a '/' in it is not covered: its base
      name is not its file name). */
  lemma FetchExactlyMissing(outputDir: string, words: seq<string>, ext: string, isFile: set<string>, w: string)
    requires w in words && Paths.Sep !in w + ext
    ensures var m := Targets(outputDir, words, ext);
      w in NotYetPresent(m, outputDir, isFile) <==> Paths.Join(outputDir, w + ext) !in isFile
  {
    TargetBasename(outputDir, words, ext, w);
    Paths.BasenameOfPlainName(w + ext);
  }

  /** The entries of `m` decided so far: those still to visit are all kept, the visited
      ones only when their file is missing. */
  function Pending(m: map<string, string>, todo: set<string>, targetDir: string, isFile: set<string>): map<string, string> {
    map k | k in m && (k in todo || StillMissing(m[k], targetDir, isFile)) :: m[k]
  }

  /** Deciding one more word keeps it only when its file is missing. */
  lemma PendingStep(m: map<string, string>, todo: set<string>, word: string, targetDir: string, isFile: set<string>)
    requires word in todo && word in m
    ensures Pending(m, todo - {word}, targetDir, isFile) ==
      if StillMissing(m[word], targetDir, isFile) then Pending(m, todo, targetDir, isFile)
      else Pending(m, todo, targetDir, isFile) - {word}
  {
  }

  /** Before any word is decided, everything is kept. */
  lemma PendingStart(m: map<string, string>, targetDir: string, isFile: set<string>)
    ensures Pending(m, m.Keys, targetDir, isFile) == m
  {
  }

  /** Once every word is decided, what is kept is what `NotYetPresent` keeps. */
  lemma PendingDone(m: map<string, string>, targetDir: string, isFile: set<string>)
    ensures Pending(m, {}, targetDir, isFile) == NotYetPresent(m, targetDir, isFile)
  {
  }

  /** `remove_existing_filenames`: visits the words of a snapshot of the dictionary and
      deletes each one whose base name already names a file in the target directory. */
  method RemoveExistingFilenames(fullFilenames: FileMap, targetDir: string, isFile: set<string>)
    modifies fullFilenames
    ensures fullFilenames.files == NotYetPresent(old(fullFilenames.files), targetDir, isFile)
  {
    var original := fullFilenames.files;
    var todo := original.Keys;
    PendingStart(original, targetDir, isFile);
    while todo != {}
      invariant todo <= original.Keys
      invariant fullFilenames.files == Pending(original, todo, targetDir, isFile)
      decreases |todo|
    {
      var word :| word in todo;
      PendingStep(original, todo, word, targetDir, isFile);
      var basename := Paths.Basename(original[word]);
      if Paths.Join(targetDir, basename) in isFile {
        fullFilenames.files := fullFilenames.files - {word};
      }
      todo := todo - {word};
    }
    PendingDone(original, targetDir, isFile);
  }

  /** The copies `main` makes of the target dictionaries before narrowing them to what
      still has to be fetched: no images at all when image fetching is disabled, every
      image when images are overridden, and otherwise only what is missing; sounds are
      always narrowed. The target dictionaries are left alone. */
  method PlanFetches(imgs: FileMap, auds: FileMap, outputDir: string, disableImageFetching: bool,
                     overrideImages: bool, isFile: set<string>)
    returns (fetchImgs: FileMap, fetchAuds: FileMap)
    ensures fresh(fetchImgs) && fresh(fetchAuds) && fetchImgs != fetchAuds
    ensures fetchImgs.files ==
      if disableImageFetching then map[]
      else if overrideImages then imgs.files
      else NotYetPresent(imgs.files, outputDir, isFile)
    ensures fetchAuds.files == NotYetPresent(auds.files, outputDir, isFile)
  {
    if disableImageFetching {
      fetchImgs := new FileMap(map[]);
    } else {
      fetchImgs := new FileMap(imgs.files);
    }
    fetchAuds := new FileMap(auds.files);
    if !overrideImages {
      RemoveExistingFilenames(fetchImgs, outputDir, isFile);
    }
    RemoveExistingFilenames(fetchAuds, outputDir, isFile);
    if disableImageFetching {
      assert NotYetPresent(map[], outputDir, isFile) == map[];
    }
  }

  /** The first word of `ws` that is not a key, if any: the KeyError `main` raises while
      logging the words it found no media for. */
  function FirstMissing(ws: seq<string>, keys: set<string>): (r: Option<string>)
    ensures r.None? <==> forall w :: w in ws ==> w in keys
    ensures r.Some? ==> exists i :: 0 <= i < |ws| && ws[i] == r.value && ws[i] !in keys &&
                                    forall j :: 0 <= j < i ==> ws[j] in keys
  {
    if ws == [] then None
    else if ws[0] !in keys then Some(ws[0])
    else
      var r := FirstMissing(ws[1..], keys);
      assert forall w :: w in ws ==> w == ws[0] || w in ws[1..];
      if r.Some? then
        var i :| 0 <= i < |ws[1..]| && ws[1..][i] == r.value && ws[1..][i] !in keys &&
                 forall j :: 0 <= j < i ==> ws[1..][j] in keys;
        assert ws[i + 1] == r.value;
        r
      else r
  }

  /** `[get_english(x) for x in words_without_audio]`, as a set. */
  function EnglishOf(es: seq<Entry>, translations: seq<string>): (r: set<string>)
    ensures forall e :: e in r ==> exists x :: x in es && x.english == e && x.translation in translations
  {
    var reverse := ReverseMap(es);
    assert forall t :: t in translations && t in reverse ==>
      exists x :: x in es && x.english == reverse[t] && x.translation == t by {
      forall t | t in translations && t in reverse
        ensures exists x :: x in es && x.english == reverse[t] && x.translation == t
      {
        ReverseMapIn(es, t);
      }
    }
    set t | t in translations && t in reverse :: reverse[t]
  }

  /** `english_words_to_remove`: the words whose image was not found, together with the
      english words of the translations whose sound was not found. The image words are
      looked up first, then the sound words, and the first unknown one is a KeyError. */
  function FailedEnglishWords(es: seq<Entry>, wordsWithoutImgs: seq<string>, wordsWithoutAudio: seq<string>)
    : (r: Result<set<string>, PairsError>)
    ensures r.Ok? <==> (forall w :: w in wordsWithoutImgs ==> w in EnglishSet(es)) &&
                       (forall t :: t in wordsWithoutAudio ==> t in TranslationSet(es))
    ensures FirstMissing(wordsWithoutImgs, EnglishSet(es)).Some? ==>
              r == Err(KeyError(FirstMissing(wordsWithoutImgs, EnglishSet(es)).value))
    ensures FirstMissing(wordsWithoutImgs, EnglishSet(es)).None? &&
            FirstMissing(wordsWithoutAudio, TranslationSet(es)).Some? ==>
              r == Err(KeyError(FirstMissing(wordsWithoutAudio, TranslationSet(es)).value))
  {
    match FirstMissing(wordsWithoutImgs, EnglishSet(es))
    case Some(w) => Err(KeyError(w))
    case None =>
      match FirstMissing(wordsWithoutAudio, TranslationSet(es))
      case Some(t) => Err(KeyError(t))
      case None => Ok(Elements(wordsWithoutImgs) + EnglishOf(es, wordsWithoutAudio))
  }

  /** With unique keys, the words to remove are english words, and an english word is
      removed exactly when its image or its sound was not found. */
  lemma FailedWordsExactly(es: seq<Entry>, wordsWithoutImgs: seq<string>, wordsWithoutAudio: seq<string>)
    requires UniqueKeys(es)
    requires FailedEnglishWords(es, wordsWithoutImgs, wordsWithoutAudio).Ok?
    ensures var failed := FailedEnglishWords(es, wordsWithoutImgs, wordsWithoutAudio).value;
      && failed <= EnglishSet(es)
      && forall e :: e in EnglishSet(es) ==>
           (e in failed <==> e in wordsWithoutImgs || ForwardMap(es)[e] in wordsWithoutAudio)
  {
    var failed := FailedEnglishWords(es, wordsWithoutImgs, wordsWithoutAudio).value;
    var reverse := ReverseMap(es);
    MapsAreInverse(es);
    forall t | t in wordsWithoutAudio ensures reverse[t] in EnglishSet(es) {
      ReverseMapIn(es, t);
    }
    forall e | e in EnglishSet(es)
      ensures e in EnglishOf(es, wordsWithoutAudio) <==> ForwardMap(es)[e] in wordsWithoutAudio
    {
      if ForwardMap(es)[e] in wordsWithoutAudio {
        assert reverse[ForwardMap(es)[e]] == e;
      }
    }
  }

  /** Every value of `reverse_translation_dict` comes from some tuple. */
  lemma {:induction false} ReverseMapIn(es: seq<Entry>, t: string)
    requires t in ReverseMap(es)
    ensures exists x :: x in es && x.translation == t && x.english == ReverseMap(es)[t]
  {
    var init, last := es[..|es| - 1], es[|es| - 1];
    assert es == init + [last];
    if last.translation != t {
      ReverseMapIn(init, t);
      var x :| x in init && x.translation == t && x.english == ReverseMap(init)[t];
      assert x in es;
    } else {
      assert last in es;
    }
  }

  /** With unique keys, the first tuple holding an english word's translation is the
      word's own tuple. */
  lemma OwnTupleFirst(es: seq<Entry>, e: string)
    requires UniqueKeys(es) && e in ForwardMap(es)
    ensures var i := FirstTranslationIndex(es, ForwardMap(es)[e]);
      0 <= i && es[i].english == e
  {
    var t := ForwardMap(es)[e];
    ForwardMapValues(es);
    var i := FirstTranslationIndex(es, t);
    ReverseMapAt(es, i);
    MapsAreInverse(es);
  }

  /** Removing one more english word adds its translation to the translations removed. */
  lemma TranslationsOfSnoc(es: seq<Entry>, done: set<string>, e: string)
    requires e in ForwardMap(es)
    ensures TranslationsOf(es, done + {e}) == TranslationsOf(es, done) + {ForwardMap(es)[e]}
  {
  }

  /** Deleting one more key from a dictionary, whether or not it is there. */
  lemma MinusOneMore(m: map<string, string>, gone: set<string>, k: string)
    ensures (m - gone) - {k} == m - (gone + {k})
  {
  }

  /** On a record with unique keys, deleting the first tuple that holds an english
      word's translation drops exactly that word. */
  lemma RemoveOwnTuple(es: seq<Entry>, e: string)
    requires UniqueKeys(es) && e in EnglishSet(es)
    ensures e in ForwardMap(es) && ForwardMap(es)[e] in TranslationSet(es)
    ensures DropTranslation(es, ForwardMap(es)[e]) == DropEnglish(es, {e})
  {
    var t := ForwardMap(es)[e];
    var i := FirstTranslationIndex(es, t);
    assert 0 <= i && es[i].english == e by {
      OwnTupleFirst(es, e);
    }
    DropTranslationAt(es, t, i);
    DropOne(es, i);
  }

  /** After the words `done` of `es0` are gone, removing one more word `e` is removing
      `done + {e}` from `es0`, and `e` still has the translation it had in `es0`. */
  lemma AdvanceStep(es0: seq<Entry>, done: set<string>, e: string)
    requires UniqueKeys(es0) && e !in done
    ensures UniqueKeys(DropEnglish(es0, done))
    ensures e in EnglishSet(DropEnglish(es0, done)) <==> e in EnglishSet(es0)
    ensures e in EnglishSet(es0) ==>
              && DropEnglish(DropEnglish(es0, done), {e}) == DropEnglish(es0, done + {e})
              && ForwardMap(DropEnglish(es0, done))[e] == ForwardMap(es0)[e]
  {
    DropEnglishUnique(es0, done);
    DropEnglishWords(es0, done);
    DropEnglishTwice(es0, done, {e});
    ForwardMapDrop(es0, done);
  }

  /** One pass of the loop of `_remove_words`, for the english word `englishWord`: a
      KeyError that changes nothing when the word is unknown, otherwise the word's sound
      entry, image entry and tuple are gone. */
  method RemoveWord(englishWord: string, filenamesToWriteAuds: FileMap, filenamesToWriteImgs: FileMap,
                    pairs: WordTranslationPairs)
    returns (r: Result<(), PairsError>)
    requires filenamesToWriteAuds != filenamesToWriteImgs
    requires UniqueKeys(pairs.data)
    modifies filenamesToWriteAuds, filenamesToWriteImgs, pairs
    ensures r.Ok? <==> englishWord in EnglishSet(old(pairs.data))
    ensures r.Err? ==> r == Err(KeyError(englishWord)) && pairs.data == old(pairs.data) &&
                       filenamesToWriteAuds.files == old(filenamesToWriteAuds.files) &&
                       filenamesToWriteImgs.files == old(filenamesToWriteImgs.files)
    ensures r.Ok? ==> pairs.data == DropEnglish(old(pairs.data), {englishWord})
    ensures r.Ok? ==> filenamesToWriteImgs.files == old(filenamesToWriteImgs.files) - {englishWord}
    ensures r.Ok? ==> filenamesToWriteAuds.files == old(filenamesToWriteAuds.files) - {ForwardMap(old(pairs.data))[englishWord]}
  {
    var lookup := pairs.GetTranslation(englishWord);
    if lookup.Err? {
      return Err(lookup.error);
    }
    var translatedWord := lookup.value;
    ghost var before := pairs.data;
    assert translatedWord in TranslationSet(before) &&
           DropTranslation(before, translatedWord) == DropEnglish(before, {englishWord}) by {
      RemoveOwnTuple(before, englishWord);
    }
    // `del` of a key that is present; taking away an absent key changes nothing.
    filenamesToWriteAuds.files := filenamesToWriteAuds.files - {translatedWord};
    filenamesToWriteImgs.files := filenamesToWriteImgs.files - {englishWord};
    var removed := pairs.RemoveTranslatedWord(translatedWord);
    r := Ok(());
  }

  /** The loop step of `_remove_words` seen from the start of the loop: once the words
      `done` of the original record `es0` are gone, removing one more word leaves the
      record and both dictionaries as if `done + {englishWord}` had been removed. */
  method RemoveNextWord(englishWord: string, filenamesToWriteAuds: FileMap, filenamesToWriteImgs: FileMap,
                        pairs: WordTranslationPairs, ghost es0: seq<Entry>, ghost done: set<string>,
                        ghost imgs0: map<string, string>, ghost auds0: map<string, string>)
    returns (r: Result<(), PairsError>)
    requires filenamesToWriteAuds != filenamesToWriteImgs
    requires UniqueKeys(es0) && englishWord !in done && done <= EnglishSet(es0)
    requires pairs.data == DropEnglish(es0, done)
    requires filenamesToWriteImgs.files == imgs0 - done
    requires filenamesToWriteAuds.files == auds0 - TranslationsOf(es0, done)
    modifies filenamesToWriteAuds, filenamesToWriteImgs, pairs
    ensures r.Ok? <==> englishWord in EnglishSet(es0)
    ensures r.Err? ==> r == Err(KeyError(englishWord)) && pairs.data == old(pairs.data) &&
                       filenamesToWriteAuds.files == old(filenamesToWriteAuds.files) &&
                       filenamesToWriteImgs.files == old(filenamesToWriteImgs.files)
    ensures r.Ok? ==> done + {englishWord} <= EnglishSet(es0)
    ensures r.Ok? ==> pairs.data == DropEnglish(es0, done + {englishWord})
    ensures r.Ok? ==> filenamesToWriteImgs.files == imgs0 - (done + {englishWord})
    ensures r.Ok? ==> filenamesToWriteAuds.files == auds0 - TranslationsOf(es0, done + {englishWord})
  {
    assert UniqueKeys(pairs.data) && (englishWord in EnglishSet(pairs.data) <==> englishWord in EnglishSet(es0)) by {
      AdvanceStep(es0, done, englishWord);
    }
    r := RemoveWord(englishWord, filenamesToWriteAuds, filenamesToWriteImgs, pairs);
    if r.Err? {
      return;
    }
    assert pairs.data == DropEnglish(es0, done + {englishWord}) &&
           filenamesToWriteAuds.files == auds0 - TranslationsOf(es0, done) - {ForwardMap(es0)[englishWord]} by {
      AdvanceStep(es0, done, englishWord);
    }
    assert filenamesToWriteAuds.files == auds0 - TranslationsOf(es0, done + {englishWord}) by {
      TranslationsOfSnoc(es0, done, englishWord);
      MinusOneMore(auds0, TranslationsOf(es0, done), ForwardMap(es0)[englishWord]);
    }
    assert filenamesToWriteImgs.files == imgs0 - (done + {englishWord}) by {
      MinusOneMore(imgs0, done, englishWord);
    }
  }

  /** `_remove_words`: removes each english word in turn (in no particular order, like the
      set it iterates over). With unique keys the order does not matter: the record loses
      exactly the words' tuples, the image dictionary their entries and the sound
      dictionary their translations' entries. An unknown word is a KeyError, raised after
      the words handled before it are already gone. */
  method RemoveWords(englishWordsToRemove: set<string>, filenamesToWriteAuds: FileMap,
                     filenamesToWriteImgs: FileMap, pairs: WordTranslationPairs)
    returns (r: Result<(), PairsError>)
    requires filenamesToWriteAuds != filenamesToWriteImgs
    requires UniqueKeys(pairs.data)
    modifies filenamesToWriteAuds, filenamesToWriteImgs, pairs
    ensures r.Ok? <==> englishWordsToRemove <= EnglishSet(old(pairs.data))
    ensures r.Err? ==> r.error.KeyError? && r.error.key in englishWordsToRemove - EnglishSet(old(pairs.data))
    ensures r.Err? ==> exists done ::
              && done < englishWordsToRemove && done <= EnglishSet(old(pairs.data))
              && pairs.data == DropEnglish(old(pairs.data), done)
              && filenamesToWriteImgs.files == old(filenamesToWriteImgs.files) - done
              && filenamesToWriteAuds.files == old(filenamesToWriteAuds.files) - TranslationsOf(old(pairs.data), done)
    ensures r.Ok? ==> pairs.data == DropEnglish(old(pairs.data), englishWordsToRemove)
    ensures r.Ok? ==> filenamesToWriteImgs.files == old(filenamesToWriteImgs.files) - englishWordsToRemove
    ensures r.Ok? ==>
              filenamesToWriteAuds.files == old(filenamesToWriteAuds.files) - TranslationsOf(old(pairs.data), englishWordsToRemove)
  {
    ghost var es0 := pairs.data;
    ghost var imgs0 := filenamesToWriteImgs.files;
    ghost var auds0 := filenamesToWriteAuds.files;
    var todo := englishWordsToRemove;
    ghost var done: set<string> := {};
    assert pairs.data == DropEnglish(es0, {}) by {
      DropEnglishNothing(es0, {});
    }
    assert TranslationsOf(es0, {}) == {};
    while todo != {}
      invariant todo + done == englishWordsToRemove && todo !! done
      invariant done <= EnglishSet(es0)
      invariant pairs.data == DropEnglish(es0, done)
      invariant filenamesToWriteImgs.files == imgs0 - done
      invariant filenamesToWriteAuds.files == auds0 - TranslationsOf(es0, done)
      decreases |todo|
    {
      var englishWord :| englishWord in todo;
      r := RemoveNextWord(englishWord, filenamesToWriteAuds, filenamesToWriteImgs, pairs, es0, done, imgs0, auds0);
      if r.Err? {
        assert englishWord in englishWordsToRemove - EnglishSet(es0);
        assert done < englishWordsToRemove;
        return;
      }
      todo := todo - {englishWord};
      done := done + {englishWord};
    }
    assert done == englishWordsToRemove;
    r := Ok(());
  }

  /** The words to remove after fetching (main.py, the end of the fetching branch): the
      failed words are worked out first, and only then removed, so an unknown word leaves
      everything as it was. */
  method ReconcileFailures(wordsWithoutImgs: seq<string>, wordsWithoutAudio: seq<string>,
                           filenamesToWriteAuds: FileMap, filenamesToWriteImgs: FileMap,
                           pairs: WordTranslationPairs)
    returns (r: Result<(), PairsError>)
    requires filenamesToWriteAuds != filenamesToWriteImgs
    requires UniqueKeys(pairs.data)
    modifies filenamesToWriteAuds, filenamesToWriteImgs, pairs
    ensures var failed := FailedEnglishWords(old(pairs.data), wordsWithoutImgs, wordsWithoutAudio);
      && (r.Ok? <==> failed.Ok?)
      && (r.Err? ==> r.error == failed.error && pairs.data == old(pairs.data) &&
                     filenamesToWriteImgs.files == old(filenamesToWriteImgs.files) &&
                     filenamesToWriteAuds.files == old(filenamesToWriteAuds.files))
      && (r.Ok? ==> pairs.data == DropEnglish(old(pairs.data), failed.value))
      && (r.Ok? ==> filenamesToWriteImgs.files == old(filenamesToWriteImgs.files) - failed.value)
      && (r.Ok? ==> filenamesToWriteAuds.files ==
                    old(filenamesToWriteAuds.files) - TranslationsOf(old(pairs.data), failed.value))
  {
    var failed := FailedEnglishWords(pairs.data, wordsWithoutImgs, wordsWithoutAudio);
    if failed.Err? {
      return Err(failed.error);
    }
    FailedWordsExactly(pairs.data, wordsWithoutImgs, wordsWithoutAudio);
    r := RemoveWords(failed.value, filenamesToWriteAuds, filenamesToWriteImgs, pairs);
  }

  /** After the removal, dictionaries keyed by all english words and by all translations
      are keyed by the words left and by their translations, one sound per word. */
  lemma KeysAfterRemoval(es: seq<Entry>, toRemove: set<string>, imgs: map<string, string>, auds: map<string, string>)
    requires UniqueKeys(es)
    requires imgs.Keys == EnglishSet(es) && auds.Keys == TranslationSet(es)
    ensures var kept := DropEnglish(es, toRemove);
      && (imgs - toRemove).Keys == ForwardMap(kept).Keys
      && (auds - TranslationsOf(es, toRemove)).Keys == ForwardMap(kept).Values
      && |auds - TranslationsOf(es, toRemove)| == |ForwardMap(kept)| == |kept|
  {
    var kept := DropEnglish(es, toRemove);
    var auds' := auds - TranslationsOf(es, toRemove);
    assert (imgs - toRemove).Keys == ForwardMap(kept).Keys by {
      DropEnglishWords(es, toRemove);
    }
    assert auds'.Keys == TranslationSet(kept) by {
      DropEnglishTranslations(es, toRemove);
    }
    assert UniqueKeys(kept) by {
      DropEnglishUnique(es, toRemove);
    }
    ForwardMapValues(kept);
    UniqueSizes(kept);
    assert |auds'| == |auds'.Keys|;
    assert |ForwardMap(kept)| == |ForwardMap(kept).Keys|;
  }

  /** Removing english words of a record with unique keys removes one tuple each. */
  lemma RemovalCount(es: seq<Entry>, toRemove: set<string>)
    requires UniqueKeys(es) && toRemove <= EnglishSet(es)
    ensures |DropEnglish(es, toRemove)| == |es| - |toRemove|
  {
    var kept := DropEnglish(es, toRemove);
    DropEnglishUnique(es, toRemove);
    DropEnglishWords(es, toRemove);
    UniqueSizes(kept);
    UniqueSizes(es);
    assert EnglishSet(es) == (EnglishSet(es) - toRemove) + toRemove;
  }

  /** The dictionaries of files to write that `main` builds are keyed by the english
      words and by the translations. */
  lemma TargetKeys(es: seq<Entry>, outputDir: string)
    ensures Targets(outputDir, EnglishColumn(es), ImageExt).Keys == EnglishSet(es)
    ensures Targets(outputDir, TranslationColumn(es), AudioExt).Keys == TranslationSet(es)
  {
    ColumnElements(es);
  }

  /** What `main` hands to `make_csv_format` once the words in `toRemove` (english words
      of a record with unique keys) are removed from the record and from dictionaries of
      files keyed like the ones it builds (see TargetKeys) is valid, and gives one row per
      word left. */
  lemma CsvAfterRemoval(es: seq<Entry>, toRemove: set<string>, imgs: map<string, string>, auds: map<string, string>)
    requires UniqueKeys(es) && toRemove <= EnglishSet(es)
    requires imgs.Keys == EnglishSet(es) && auds.Keys == TranslationSet(es)
    ensures var kept := DropEnglish(es, toRemove);
      var out := AnkiCsv.MakeCsvFormat(ForwardMap(kept), imgs - toRemove, auds - TranslationsOf(es, toRemove),
                                       Some(ExtraInfoMap(kept)));
      out.Ok? && |out.value| == |kept| == |es| - |toRemove|
  {
    var kept := DropEnglish(es, toRemove);
    KeysAfterRemoval(es, toRemove, imgs, auds);
    assert AnkiCsv.Consistent(ForwardMap(kept), imgs - toRemove, auds - TranslationsOf(es, toRemove),
                              Some(ExtraInfoMap(kept)));
    RemovalCount(es, toRemove);
  }
}
