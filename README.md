# EasyAnki bookkeeping, in Dafny

EasyAnki turns a list of English words and their Hebrew translations into an Anki
deck. For every word it fetches an image and a pronunciation, then writes an import
file with one note per word. This project models the logic behind that pipeline, leaving
out the network and the disk:

- **The record of flashcard candidates** (`WordTranslationPairs`, main.py) is the class
  `WordPairs.WordTranslationPairs`. It holds the list of `(english, translation, extra)`
  tuples in a mutable `data` field. Around it are:
  - the normalisation of input rows to three fields;
  - the column views;
  - the forward, reverse and extra-info dictionaries;
  - the lookups and `remove_translated_word`;
  - the uniqueness checks `_check_unique` and `_all_unique`.

  With unique keys, the two dictionaries are inverse to each other. Removing a
  translation removes exactly its own tuple, and the keys stay unique.
- **The media plan of `main`** (module `MediaPlan`) covers:
  - the dictionaries of files to write, keyed by english word (images) and by
    translation (sounds);
  - the copies that are narrowed to what still has to be fetched
    (`remove_existing_filenames`, on the class `FileMap`);
  - the set of words whose media could not be fetched;
  - `_remove_words`, which drops those words from the record and from both
    dictionaries together.

  The file system enters only as the set of paths that `os.path.isfile` accepts. The
  model proves that after the removal:
  - the dictionaries are still keyed by exactly the words left and their translations;
  - so `make_csv_format` accepts them and yields one row per word left.
- **The Anki rows** (module `AnkiCsv`, anki_import_csv.py) cover:
  - the image and sound tags, which name a file's base name;
  - `_validate_inputs`, which accepts exactly the consistent inputs;
  - `make_csv_format`, which yields one row per english word: image tag, translation,
    sound tag, english word, then the word's extra info.

  The rows form a set, because the source yields them in dictionary order.
- **Diacritic stripping** (module `Diacritics`, translation.py): a word loses its code
  points in 1425..1479 (U+0591..U+05C7) and keeps everything else in order. Stripping is
  idempotent. The model reproduces the example in the source's test.
- **Forvo response selection** (module `Forvo`, forvo_utils.py) covers:
  - the request URL;
  - the check that each item has exactly one `pathmp3` and one `rate`;
  - the choice of the path of the greatest `(rate, path)` pair, which is unique.

`Paths` gives `os.path.basename` and two-argument `os.path.join` with POSIX semantics.
`Wrappers` holds the `Result`/`Option` types that stand in for raised exceptions.

Three facts about the code that the model keeps:
- Image files are named `{english}.png` (main.py:80).
- `extra_info` gives every english word the list `[x[2]]`, also when the field is empty
  (main.py:139-146).
- The docstring of `remove_existing_filenames` (main.py:217-219) says it raises `ValueError`;
  the code deletes the entry instead (main.py:222-224).

## Model

| member | source | states |
|---|---|---|
| WordPairs.Entry.Fields | main.py:107 | every stored tuple has exactly NUM_INPUT_FILE_FIELDS (3) fields |
| WordPairs.NormalizeRow | main.py:94-106 | a 3-field row is kept as it is; a 2-field row is padded with `""` as field 2; any other arity is the ValueError naming the row, its arity and 3 |
| WordPairs.Normalize | main.py:90-109 | succeeds exactly when every row has 2 or 3 fields; then it keeps the length, and position i holds row i normalised |
| WordPairs.NormalizePrefixError | main.py:103-106 | once a prefix of the rows fails, the whole list fails with the same error |
| WordPairs.NormalizeFirstError | main.py:93-106 | the error raised names the first malformed row |
| WordPairs.NormalizeTupleList | main.py:90-109 | the appending loop computes `Normalize` of its input, error included |
| WordPairs.NormalizeIdempotent | main.py:90-109 | normalising an already normalised list gives it back unchanged |
| WordPairs.EnglishColumn | main.py:111-113 | definition of `english_words`: one entry per tuple, in list order, each being field 0 |
| WordPairs.TranslationColumn | main.py:115-117 | definition of `translations`: one entry per tuple, in list order, each being field 1 |
| WordPairs.SetsMembers | main.py:123-134 | a word is a key of `translation_dict` (`reverse_translation_dict`) exactly when some tuple has it as english word (translation) |
| WordPairs.ForwardMap | main.py:123-126 | `translation_dict` has exactly the english words of the list as keys |
| WordPairs.ReverseMap | main.py:131-134 | `reverse_translation_dict` has exactly the translations of the list as keys |
| WordPairs.ExtraInfoMap | main.py:139-146 | `extra_info` has every english word of the list as a key, including words whose extra field is empty |
| WordPairs.ForwardMapAt | main.py:123-146 | with unique keys, tuple i is found under its english word, and its extra info is `[extra]` |
| WordPairs.ReverseMapAt | main.py:131-134 | with unique keys, tuple i is found under its translation |
| WordPairs.MapsAreInverse | main.py:123-137 | with unique keys, `translation_dict` and `reverse_translation_dict` are inverse to each other, both ways round |
| WordPairs.ForwardMapValues | main.py:123-126 | with unique keys, the values of `translation_dict` are exactly the translations |
| WordPairs.FirstTranslationIndex | main.py:150-156 | the scan finds the first tuple holding the translation, and -1 exactly when no tuple holds it |
| WordPairs.DropTranslation | main.py:150-161 | deleting by translation removes one tuple when some tuple holds the translation and none otherwise, and keeps only tuples of the list |
| WordPairs.DropTranslationAt | main.py:150-161 | deleting the first tuple holding `t` removes that position only and keeps the others in order |
| WordPairs.DropTranslationAbsent | main.py:157-160 | when no tuple holds `t`, the list stays as it is |
| WordPairs.AllUnique | main.py:244-245 | `_all_unique` holds exactly when no word occurs twice |
| WordPairs.ElementsSize | main.py:244-245 | the set of a list is never larger than the list, and as large exactly when no word occurs twice |
| WordPairs.CheckUnique | main.py:238-241 | `_check_unique` succeeds exactly when no word occurs twice, which is when `_all_unique` holds; otherwise it names the first word that repeats an earlier one |
| WordPairs.CheckKeysUnique | main.py:267-270 | the two checks in `main` pass exactly when english words and translations are each unique; repeated english words are reported first |
| WordPairs.WordTranslationPairs.Create | main.py:85-88 | `__init__` stores the normalised rows in a new record, or raises the normalisation error |
| WordPairs.WordTranslationPairs.GetTranslation | main.py:128-129 | succeeds exactly for a stored english word; otherwise a KeyError for that word. With unique keys it returns the translation of that word's tuple |
| WordPairs.WordTranslationPairs.GetEnglish | main.py:136-137 | succeeds exactly for a stored translation; otherwise a KeyError for that translation. With unique keys it returns the english word of that translation's tuple |
| WordPairs.WordTranslationPairs.RemoveTranslatedWord | main.py:150-161 | succeeds exactly when some tuple holds the translation, and then deletes the first such tuple only; otherwise it raises the ValueError and the list is left as it was |
| WordPairs.LookupRoundTrip | main.py:128-137 | with unique keys, `get_translation(get_english(t)) == t` and `get_english(get_translation(e)) == e` |
| WordPairs.DropEnglish | main.py:199-207 | the list without the tuples of the removed words keeps exactly the other tuples and is no longer |
| WordPairs.DropEnglishUnique | main.py:199-207 | removing tuples keeps english words and translations unique |
| WordPairs.DropEnglishWords | main.py:199-207 | the english words left are the old ones minus the removed ones |
| WordPairs.DropEnglishNothing | main.py:199-207 | removing words that no tuple has changes nothing |
| WordPairs.DropEnglishTwice | main.py:201-207 | removing two sets of words one after the other is removing their union |
| WordPairs.DropOne | main.py:161 | with unique keys, deleting the tuple at i is removing its english word |
| WordPairs.ForwardMapDrop | main.py:199-207 | removing words removes exactly those keys from `translation_dict` |
| WordPairs.DropEnglishTranslations | main.py:199-207 | with unique keys, removing words removes exactly their translations from the translations |
| WordPairs.ColumnElements | main.py:111-134 | the columns hold exactly the keys of the two dictionaries |
| WordPairs.UniqueSizes | main.py:267-270 | with unique keys, each dictionary has as many keys as the list has tuples |
| WordPairs.RemovalConsistency | main.py:150-161 | with unique keys, `remove_translated_word` leaves one tuple fewer and unique keys; it removes that tuple's english word from `translation_dict` and the translation from the translations, and changes nothing else |
| AnkiCsv.ImgFormat | anki_import_csv.py:15-16 | the image tag encloses the file's base name, which holds no separator, between `<img src="` and `">` |
| AnkiCsv.Mp3Format | anki_import_csv.py:19-20 | the sound tag encloses the file's base name, which holds no separator, between `[sound:` and `]` |
| AnkiCsv.TagsNameTheFile | anki_import_csv.py:11-20 | two image (sound) tags are equal exactly when the files have the same base name; an image tag is never a sound tag |
| AnkiCsv.TagsIgnoreDirectory | anki_import_csv.py:15-20 | a tag does not depend on the file's directory; for a plain file name it is `<img src="name">` or `[sound:name]` |
| AnkiCsv.Truthy | anki_import_csv.py:36 | definition of the Python truthiness of `extra_info`: true exactly when it is given and is not the empty dictionary |
| AnkiCsv.SubsetOfSameSize | anki_import_csv.py:36-47 | extra-info keys that are a subset of the english words and as many as them are all of them |
| AnkiCsv.ValidateInputs | anki_import_csv.py:23-49 | `_validate_inputs` accepts exactly the consistent inputs: image keys = english words, audio keys = translations with no translation shared by two words, and truthy extra info keyed by every english word. The checks run in the source's order, and the first that fails gives the error: image size, audio size, extra-info size, image keys, extra-info keys, audio keys |
| AnkiCsv.MakeRow | anki_import_csv.py:71-75 | the row of an english word has at least four fields, with the translation as field 1 and the word as field 3 |
| AnkiCsv.MakeRowShape | anki_import_csv.py:71-75 | a row is image tag, translation, sound tag, english word, then the word's extra fields |
| AnkiCsv.RowsOf | anki_import_csv.py:70-76 | every row of a valid input has at least four fields, an english word as field 3 and that word's translation as field 1 |
| AnkiCsv.RowsOfWord | anki_import_csv.py:70-76 | every row of a valid input is the row of its own english word |
| AnkiCsv.RowShape | anki_import_csv.py:70-76 | every row of a valid input has that layout |
| AnkiCsv.RowsCover | anki_import_csv.py:70-76 | a valid input has a row for every english word |
| AnkiCsv.RowsOfCount | anki_import_csv.py:70-76 | a valid input gives exactly as many rows as english words: one per word, and no more |
| AnkiCsv.MakeCsvFormat | anki_import_csv.py:52-76 | it gives rows exactly when validation passes (an invalid input gives the validation error and no rows), one per english word, each with the promised layout; without truthy extra info every row has 4 fields |
| Paths.LastSep | anki_import_csv.py:16 | finds the last separator, or -1 when there is none |
| Paths.Basename | main.py:221 | `os.path.basename` is a suffix of the path that holds no separator |
| Paths.BasenameSpec | anki_import_csv.py:16 | the base name is preceded by a separator unless it is the whole path, so it is the longest separator-free suffix |
| Paths.BasenameUnique | main.py:221 | those properties determine the base name |
| Paths.BasenameOfPlainName | main.py:221 | a name without separators is its own base name |
| Paths.Join | main.py:223 | `os.path.join(dir, name)` ends with `name` |
| Paths.JoinSpec | main.py:223 | `name` comes right after a separator (or is the whole result), and `dir` is kept in front unless `name` is absolute |
| Paths.BasenameOfJoin | main.py:221-223 | joining a directory in front of a name keeps the base name |
| MediaPlan.Targets | main.py:275-280 | the dictionaries of files to write have a key for every word in the column |
| MediaPlan.TargetBasename | main.py:275-280 | a word's file to write has the base name of `word + ext` |
| MediaPlan.TargetKeys | main.py:275-280 | the image dictionary is keyed by the english words and the sound dictionary by the translations |
| MediaPlan.FileMap.constructor | main.py:289-290 | a copy of a dictionary holds the same entries |
| MediaPlan.StillMissing | main.py:223 | a word's file counts as present only when some existing file has the same base name |
| MediaPlan.NotYetPresent | main.py:210-226 | keeps exactly the entries whose base name names no existing file in the target directory, with their values untouched |
| MediaPlan.RemoveExistingFilenames | main.py:210-226 | the dictionary is narrowed in place to `NotYetPresent` of what it was |
| MediaPlan.FetchExactlyMissing | main.py:275-294 | for the dictionaries `main` builds, a word stays to fetch exactly when its own target file does not exist |
| MediaPlan.PlanFetches | main.py:286-294 | images to fetch: none when image fetching is disabled, all of them when images are overridden, otherwise the missing ones. Sounds to fetch: the missing ones. The copies are new dictionaries, separate from each other |
| MediaPlan.FirstMissing | main.py:312-320 | finds the first word that is not a key, or none exactly when all are keys |
| MediaPlan.EnglishOf | main.py:322 | every english word found for the sound-less translations is the english word of a tuple whose translation is among them |
| MediaPlan.FailedEnglishWords | main.py:312-322 | succeeds exactly when every image-less word is an english word and every sound-less word a translation; otherwise the KeyError of the first unknown image word, then of the first unknown sound word |
| MediaPlan.FailedWordsExactly | main.py:321-322 | with unique keys, an english word is to be removed exactly when its image or its sound is missing |
| MediaPlan.ReverseMapIn | main.py:131-134 | every entry of `reverse_translation_dict` comes from a tuple |
| MediaPlan.OwnTupleFirst | main.py:202-207 | with unique keys, the first tuple holding an english word's translation is the word's own tuple |
| MediaPlan.RemoveOwnTuple | main.py:202-207 | with unique keys, deleting that tuple removes exactly the english word |
| MediaPlan.AdvanceStep | main.py:201-207 | after some words are gone, removing one more is removing the union, and the word keeps its translation |
| MediaPlan.RemoveWord | main.py:202-207 | one pass of the loop: a KeyError that changes nothing for an unknown word; otherwise the word's tuple, image entry and sound entry are gone and nothing else changes |
| MediaPlan.RemoveNextWord | main.py:201-207 | the loop step keeps the loop's invariant: the record and both dictionaries look as if the words done so far were removed from the originals. A KeyError for an unknown word changes nothing |
| MediaPlan.RemoveWords | main.py:199-207 | `_remove_words` succeeds exactly when all words are english words. Then the record loses exactly their tuples, the image dictionary exactly their keys, and the sound dictionary exactly their translations; otherwise it gives a KeyError for one of the unknown words, and the words handled before it are already gone: the record, the image dictionary and the sound dictionary look as if some proper subset of the english words given had been removed |
| MediaPlan.ReconcileFailures | main.py:312-324 | works out the failed words and removes exactly those from the record and both dictionaries. On a KeyError from the lookup, the error is passed on and the record and both dictionaries are unchanged |
| MediaPlan.KeysAfterRemoval | main.py:323-337 | after the removal, the image keys are the words left and the sound keys their translations, one sound per word |
| MediaPlan.RemovalCount | main.py:199-207 | removing k english words removes exactly k tuples |
| MediaPlan.CsvAfterRemoval | main.py:323-337 | what `main` passes to `make_csv_format` after the removal is accepted, and gives one row per word left |
| Diacritics.IsMark | translation.py:72 | every code point that is stripped lies in the Hebrew block below its first letter (U+05D0): Hebrew letters, and everything outside the Hebrew block, are kept |
| Diacritics.Stripped | translation.py:69-74 | the stripped word is never longer than the word |
| Diacritics.StripWord | translation.py:63-74 | the letter loop computes `Stripped` |
| Diacritics.StrippedAll | translation.py:75 | the list of stripped words has one word per input word |
| Diacritics.StripDiacritics | translation.py:54-75 | `strip_diacritics` keeps the length and strips each word in its place |
| Diacritics.StrippedHasNoMarks | translation.py:70-73 | no letter of a stripped word lies in 1425..1479, and every letter comes from the input |
| Diacritics.StrippedSnoc | translation.py:70-73 | one more letter is appended exactly when it lies outside 1425..1479 |
| Diacritics.StrippedAppend | translation.py:69-74 | stripping works letter by letter and keeps the order: stripping a concatenation concatenates the stripped parts |
| Diacritics.StrippedClean | translation.py:69-74 | a word without marks comes back unchanged |
| Diacritics.StrippedIdempotent | translation.py:63-74 | stripping twice is stripping once |
| Diacritics.StrippedAllIdempotent | translation.py:54-75 | stripping a list twice is stripping it once |
| Diacritics.StripShirtLetters | translation_test.py:15-16 | the test's first word, taken letter by letter, keeps its five letters and drops the dagesh and the qamats |
| Diacritics.StripShirt | translation_test.py:15-16 | the test's first word becomes the expected word |
| Diacritics.StripTrousersLetters | translation_test.py:15-16 | the test's second word, taken letter by letter, keeps its seven letters and drops its five points |
| Diacritics.StripTrousers | translation_test.py:15-16 | the test's second word becomes the expected word |
| Diacritics.StripExample | translation_test.py:14-20 | `strip_diacritics` gives the test's expected list |
| Forvo.ForvoUrl | forvo_utils.py:17-19 | the URL is the fixed prefix, the key, the fixed part before the word, the word, `/language/` and the language, in that order; its length is the sum of the parts, so nothing else is added |
| Forvo.ForvoUrlInjective | forvo_utils.py:17-19 | with key and language fixed, two words give the same URL exactly when they are the same word |
| Forvo.ForvoUrlDefault | forvo_utils.py:17-19 | the language defaults to "he", so the URL ends in `/language/he` |
| Forvo.GetAndCheckUnique | forvo_utils.py:34-40 | succeeds with the only child exactly when there is one; more than one and none are two different errors |
| Forvo.RatedPath | forvo_utils.py:42-45 | an item gives its `(rate, pathmp3)` pair exactly when it has one of each; `pathmp3` is checked first |
| Forvo.StrLe | forvo_utils.py:48 | Python's string order, under which a prefix of a string (the string itself included) comes no later than it |
| Forvo.PairLe | forvo_utils.py:48 | definition of Python's order on `(rate, path)` tuples: a lower rate comes first, and only equal rates are ordered by path |
| Forvo.StrLeTotal | forvo_utils.py:47-48 | any two paths are comparable |
| Forvo.StrLeTransitive | forvo_utils.py:47-48 | the path ordering is transitive |
| Forvo.StrLeAntisymmetric | forvo_utils.py:47-48 | the path ordering is antisymmetric |
| Forvo.Greatest | forvo_utils.py:47-49 | the first element after a descending sort is a member that every pair is at most |
| Forvo.GreatestUnique | forvo_utils.py:47-49 | the greatest pair is unique, so the result does not depend on how the sort treats ties |
| Forvo.ExtractMp3Link | forvo_utils.py:32-49 | succeeds exactly when there are items and all are well formed. An empty response fails, and otherwise the first bad item's error is raised. The result is the `pathmp3` of an item whose `(rate, path)` is greatest: the highest rate, and among those the greatest path |

Definitions used by the contracts above, without a row of their own: `AnkiCsv.ExtraFields`
(`extra_info.get(eng, [])` when `extra_info` is truthy, no fields otherwise), `AnkiCsv.RowFor`
(the layout `make_csv_format` gives a row: image tag, translation, sound tag, english word, extra
fields), `WordPairs.FieldsOf` (the stored list written back as 3-field tuples),
`WordPairs.TranslationsOf` (the translations `translation_dict` gives a set of english words) and
`MediaPlan.Pending` (the entries `RemoveExistingFilenames` has kept so far: all words still to
visit, and the visited ones whose file is missing).

Proof helpers without a row of their own: `WordPairs.TranslationOfOthers` and
`WordPairs.TranslationsOfOne` (with unique english words, a tuple's translation belongs to its own
word only), `MediaPlan.PendingStart`, `MediaPlan.PendingStep` and
`MediaPlan.PendingDone` (the invariant of the loop in `RemoveExistingFilenames`),
`MediaPlan.TranslationsOfSnoc` and `MediaPlan.MinusOneMore` (set and map algebra for
`RemoveNextWord`), `WordPairs.UpdateOutside`, `WordPairs.EnglishSetSnoc`, `WordPairs.UniqueSnoc`,
`AnkiCsv.RowsPerWord`, `Paths.SuffixFreeOfSep`, `Paths.BasenameOfTail`, and the spellings
`Diacritics.ShirtSpelling` and `Diacritics.TrousersSpelling`.

## Left out

- Command-line parsing, logging, and reading the input CSV files (`_num_elements_in_first_row`, `parse_word_translation_csv`, `parse_single_word_csv`) are not modelled. Writing the output file (`_write_csv_rows`) is not modelled either. They are file I/O with no logic of their own.
- Fetching media is not modelled: images.py, audio.py, `translation.get_translations`, `forvo_utils._get_forvo_xml` and `get_mp3_link` make network calls and copy files. The words whose image or sound was not found enter as parameters of `MediaPlan.ReconcileFailures`. credentials.py is not part of this model.
- `_files_exist` (main.py:192-196, 327-329) checks the disk after fetching. It is not modelled, because the model has no fetching that could create files.
- The file system is a parameter: the set of paths `os.path.isfile` accepts.
- The XML parse and `int()` of the rate text are not modelled. A response is given as its sequence of items, each with its `pathmp3` texts and already-parsed `rate` values. A non-numeric rate, a ValueError in the source, is therefore not modelled.
- Forvo.ExtractMp3Link: the in-place descending sort followed by taking element 0 is modelled as choosing the greatest pair. `Forvo.GreatestUnique` shows that the result is the same.
- The error messages are not modelled; errors are datatype values. The source's message for a missing or repeated `rate` wrongly says `pathmp3`.
- Python 2 dictionary iteration order is not modelled. The rows of `make_csv_format` are a set, and `_remove_words` removes the words in an arbitrary order.
- The strings are sequences of code points. The UTF-8 decode and encode in `_strip_word` and its `str`/`unicode` type check are not modelled.
- The english and translation column indices are fixed at 0 and 1, the defaults every caller uses. This makes the `else None` branch of `extra_info` (main.py:147-148) unreachable, so it is not modelled.
- WordPairs.WordTranslationPairs.ExtraInfo, EnglishWords, Translations, TranslationDict and ReverseTranslationDict are the class's views of `ForwardMap`, `ReverseMap`, `ExtraInfoMap`, `EnglishColumn` and `TranslationColumn`. Their properties are stated on those functions.
- MediaPlan.RemoveWord deletes both dictionary keys without first testing membership, as the source's `if … in …: del` does. The effect is the same whether or not the key is present.
- MediaPlan.RemoveWords, MediaPlan.RemoveWord, MediaPlan.RemoveNextWord and MediaPlan.ReconcileFailures require unique english words and translations. `main` always establishes this first (main.py:267-270). With duplicates, the tuple `remove_translated_word` deletes could belong to another word, and that case is not modelled.
- MediaPlan.FetchExactlyMissing is stated only for words without a '/'. For other words the base name of the target is not the word's own file name.
