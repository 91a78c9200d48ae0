# image2text: file selection and output naming, verified

This project models the conversion script of image2text, a tool that runs the
Tesseract OCR engine over the images in a directory and saves the recognised
text. The script (`main.py`) lists the directory. It keeps an entry when the
entry's extension, lower-cased, is in a fixed list of image extensions. For each
kept entry it runs OCR on `path/entry` and writes the text to
`path/converted-text/<stem>.txt`. Here `<stem>` is the entry's name without its
last extension, with every character other than an ASCII letter, digit or `-`
removed. After each file it prints a numbered progress line, "1 file completed",
"2 files completed", and so on. `constants.py` holds a newer, larger list of
extensions, plus the commands used to look up the OCR binary.

Modules, one per file:

- `Sequences` (sequences.dfy): order-preserving filtering. It is the shape of
  both the stem's character filter and the loop's skipping of entries.
- `Text` (text.dfy): `str.lower()`, `str.isalnum()` and `str(n)` as Python 2
  computes them on byte strings, where only ASCII letters and digits count.
- `PathSplit` (pathsplit.dfy): `os.path.splitext`. It splits at the last dot of
  the last path component. Dots at the start of the component do not count.
- `Constants` (constants.dfy), modelling constants.py: the constants and the
  properties of the extension list.
- `Convert` (convert.dfy), modelling main.py: the selection test, the sanitised
  stem, the output path, the progress line, and the loop itself as the method
  `ConvertDirectory`. The method is proved against specification functions
  (`Selected`, `OutputPath`, `Writes`, `FilesAfter`, `ProgressMessages`), and
  the lemmas are about those functions.

The OCR engine is a parameter `ocr: string -> string`, from image path to text.
The directory listing is a parameter `listing: seq<string>`. The output files
are a `map<string, string>` from path to contents: `before` is the map before
the run and the method returns the map after it. The extension list is a
parameter `exts`, so the script's own list `Convert.ValidImages` and
`Constants.ValidImageExtensions` can both be used.

Facts about the script that the model keeps:

- It is one sequential loop. There is no worker pool, no timeout, no scratch
  directory, no in-memory result mode and no classification of errors.
- It matches extensions through `splitext`, not by suffix. So a name made only
  of leading dots and an extension, like `.png`, has no extension and is skipped.
- It never checks that an entry is a regular file. A directory named `x.png`
  reaches the OCR calls.
- It creates `converted-text` before it lists the directory, so every listing,
  the first included, holds that folder; the folder has no extension and is
  never processed.

## Model

| member | source | states |
|---|---|---|
| Sequences.Filter | main.py:40 | the result is no longer than the input and holds exactly the input's elements that satisfy the predicate |
| Sequences.FilterSubsequence | main.py:40 | filtering only deletes elements and keeps the order of the rest |
| Sequences.FilterMultiset | main.py:40 | every kept element stays as often as it occurred; every other element is gone |
| Sequences.FilterConcat | main.py:40 | filtering a concatenation is concatenating the filtered parts |
| Sequences.FilterIdempotent | main.py:40 | filtering twice with the same predicate equals filtering once |
| Text.LowerStrProperties | main.py:29 | `lower()` keeps the length, yields no upper-case letter, and changes no character other than an upper-case letter |
| Text.LowerStrIdempotent | main.py:29 | lower-casing twice equals lower-casing once |
| Text.Lower | main.py:29 | the definition is the model of `lower()` on one byte; see `Text.LowerStrProperties` and `Text.LowerPreimage` |
| Text.LowerStr | main.py:29 | the definition is the model of `str.lower()`; its properties are stated by `Text.LowerStrProperties` and `Text.LowerStrIdempotent` |
| Text.LowerPreimage | main.py:29 | a character that is not a letter is the lower-casing of itself only, so `.` and `/` keep their positions under `lower()` |
| Text.IsAlnum | main.py:40 | the definition is the model of `isalnum()` on one byte (ASCII letters and digits); used by `Convert.IsStemChar` |
| Text.Decimal | main.py:49 | `str(count)` is a non-empty string of digits with no leading zero, one digit long exactly when the number is below 10 |
| Text.DecimalRoundTrip | main.py:49 | reading the numeral back gives the number |
| Text.DecimalInjective | main.py:49 | different counts print different numerals |
| PathSplit.LastIndexOf | main.py:28 | `rfind`: -1 or an index holding the character, and no later index holds it |
| PathSplit.SplitExt | main.py:28-39 | the definition is the model of `os.path.splitext`, used for the extension test and for the stem; its properties are stated by `PathSplit.SplitExtSpec` and `PathSplit.SplitExtLower` |
| PathSplit.SplitExtSpec | main.py:28 | root + ext is the name; ext is empty or a dot followed by no other dot or `/`; ext is non-empty exactly when a dot of the last component follows a non-dot character of that component; then ext runs from the last dot |
| PathSplit.SplitExtOfAppended | main.py:28 | a stem with a non-dot character in its last component, followed by an extension-shaped suffix, splits back into exactly that stem and suffix |
| PathSplit.SplitExtLower | main.py:28-29 | lower-casing a name lower-cases its root and its extension and moves no split point |
| PathSplit.LeadingDotExample | main.py:28 | `.png` has no extension |
| PathSplit.LeadingDotsExample | main.py:28 | `..png` has no extension |
| PathSplit.LastDotExample | main.py:39 | `a.b.png` splits into `a.b` and `.png`: only the last extension is removed |
| PathSplit.NoDotExample | main.py:28 | `converted-text` has no extension; `a.` has the extension `.` |
| Constants.CheckCommands | constants.py:1-2 | the default lookup command is `which`, the Windows one is `where`, and they differ |
| Constants.ValidImageExtensionsWellFormed | constants.py:5-20 | every entry of the list is lower-case, has the shape of an extension, and does not occur again later in the list |
| Constants.ValidImageExtensionsDistinct | constants.py:5-20 | the list has 30 entries and no duplicates |
| Constants.ValidImageExtensionsLowerCase | constants.py:5-20 | every entry is lower-case |
| Constants.ValidImageExtensionsShape | constants.py:5-20 | every entry is a dot followed by no further dot or `/`, so `splitext` can return it |
| Convert.ValidImagesProperties | main.py:13 | the script's own list has 6 distinct entries, all lower-case and extension-shaped |
| Convert.ValidImageExtensionsExtendValidImages | constants.py:5-20 | every entry of the script's list is in the constants.py list |
| Convert.OutputDirectory | main.py:21 | the definition is the model of the output directory path; `Convert.OutputPath` states that every output path starts with it |
| Convert.ImagePath | main.py:32 | the definition is the model of the path given to OCR; `Convert.ConvertDirectory` and `Convert.LaterCollidingEntryWins` state that it is what the text is read from |
| Convert.IsAccepted | main.py:28-29 | the definition is the model of the extension test; its properties are stated by `Convert.AcceptanceIgnoresCase`, `Convert.NoExtensionNotAccepted`, `Convert.UpperCaseEntryNeverMatches` and `Convert.AcceptsEveryCasing` |
| Convert.Selected | main.py:27-30 | the definition is the model of the entries the loop processes; its properties are stated by `Convert.SelectedSpec` and `Convert.ListedOutputFolderIgnored` |
| Convert.IsStemChar | main.py:40 | the definition is the model of the character test of the stem filter; `Convert.Sanitize` and `Convert.SanitizeKeepsStemChars` use it |
| Convert.ProgressMessage | main.py:48-51 | the definition is the model of the progress line; its properties are stated by `Convert.ProgressMessageWording` |
| Convert.Writes | main.py:41-45 | the definition is the model of the (path, text) writes in order; `Convert.ConvertDirectory` states that the loop performs them |
| Convert.FilesAfter | main.py:43-45 | the definition is the model of the files after the writes; its properties are stated by `Convert.FilesAfterLookup` and `Convert.FilesAfterIdempotent` |
| Convert.AcceptanceIgnoresCase | main.py:28-29 | two names that differ only in letter case are both processed or both skipped |
| Convert.NoExtensionNotAccepted | main.py:28-30 | if the list holds no empty string, a name without an extension is skipped |
| Convert.OutputFolderNotAccepted | main.py:21-29 | the created `converted-text` entry is never processed, even when it is listed |
| Convert.UpperCaseEntryNeverMatches | main.py:29 | a list entry that is not lower-case can never match, because the extension is lower-cased before the comparison |
| Convert.AcceptsEveryCasing | main.py:28-29 | for a lower-case, extension-shaped entry of the list, a proper stem followed by that entry in any mix of cases is processed, and the stem is recovered |
| Convert.ValidImageExtensionsAcceptEveryCasing | constants.py:5-20 | the same for every entry of the constants.py list |
| Convert.SelectedSpec | main.py:27-30 | the processed entries are in listing order, and are exactly the listed entries that pass the test |
| Convert.Sanitize | main.py:40 | the sanitised stem has only letters, digits and `-`, and is never longer than the stem |
| Convert.SanitizeKeepsStemChars | main.py:40 | the sanitised stem is a subsequence of the stem that keeps every letter, digit and `-` as often as it occurs |
| Convert.SanitizeClean | main.py:40 | a stem that is already clean is unchanged |
| Convert.SanitizeIdempotent | main.py:40 | sanitising twice equals sanitising once |
| Convert.SanitizeConcat | main.py:40 | sanitising works character by character |
| Convert.OutputPath | main.py:39-41 | every output path starts with `path + '/converted-text/'`, ends in `.txt`, and holds only letters, digits and `-` in between |
| Convert.SanitizeDottedStem | main.py:40 | the stem `a.b` sanitises to `ab` |
| Convert.OutputPathOfSeveralDots | main.py:39-41 | `a.b.png` is written to `ab.txt` |
| Convert.OutputPathNotInjective | main.py:39-41 | `a b.png` and `ab.jpg` are different names, are both processed, and share the output path `ab.txt` |
| Convert.ProgressMessageWording | main.py:48-51 | the progress line starts with the numeral of `count`, then says " file completed" exactly when `count` is 1 and " files completed" otherwise |
| Convert.LastWriteTo | main.py:43-45 | -1 or the index of a write to the key, and no later write goes to that key |
| Convert.FilesAfterLookup | main.py:43-45 | after the writes, a file holds the text of the last write to it, and a file nobody wrote to is as it was |
| Convert.FilesAfterIdempotent | main.py:43-45 | performing the same writes a second time changes no file |
| Convert.ListedOutputFolderIgnored | main.py:23-30 | a listing that holds the output folder anywhere processes the same entries as that listing without it |
| Convert.RerunChangesNothing | main.py:23-45 | over a listing that holds the output folder, the first run's files are those written by the other entries; a second run over the same listing, in the same order and with the same OCR function, leaves every file as the first run left it |
| Convert.LaterCollidingEntryWins | main.py:40-45 | in the two-entry listing `[f, g]` of processed entries with the same output path, the file ends up with the text of `g`, the later one |
| Convert.LoopSkip | main.py:28-30 | an entry whose lower-cased extension is not in the list changes nothing the loop has produced |
| Convert.LoopAccept | main.py:31-54 | an accepted entry adds its output path, its text under that path and the progress line for the current `count`, and increments `count` |
| Convert.LoopDone | main.py:26-54 | after the whole listing, `count` is one more than the number of processed entries, the k-th output path and progress line belong to the k-th processed entry, and the files are `before` updated by the writes in order |
| Convert.ConvertDirectory | main.py:26-54 | the final `count` is one more than the number of processed entries; the k-th output path is that of the k-th processed entry in listing order; the k-th progress line reports k; the files afterwards are `before` updated by the writes in order |

## Left out

- OCR: `Image.open`, `image_to_string` and `image_file_to_string` are library calls. The function parameter `ocr` stands for them. As in the script, only the text of the last call (with `graceful_errors=True`) is written. The two earlier calls and any exception they raise are not modelled: an exception would end the script in the middle of the loop.
- Filesystem: `os.makedirs` and `os.path.exists` create the output folder and are not modelled. The files written are a map from path to contents, and `open`/`write`/`close` become one map update. The order of `os.listdir` is an input.
- Case-insensitive file systems: `Convert.FilesAfter` keys files by the exact output-path string, as a case-sensitive (POSIX) file system does. On a case-insensitive one (the default on Windows and macOS), output names that differ only in letter case, as for `A.png` and `a.jpg`, are one file, so the later write replaces the earlier one. The model keeps them apart. So `Convert.FilesAfterLookup`, `Convert.LaterCollidingEntryWins` and `Convert.OutputPathNotInjective` describe collisions only as equal path strings.
- Console output: the dashed separator lines are not modelled. Only the progress line, as a string, is.
- `sys.argv[1]` is the `path` parameter.
- `Constants.TesseractDataPathVar` (constants.py:3) is declared but not used by the modelled code. The check that the OCR binary is present, and the platform choice between the two lookup commands, are not in main.py or constants.py.
- Characters: names are sequences of characters. `isalnum` and `lower` follow Python 2 byte strings in the C locale: only ASCII letters and digits count, and only ASCII upper-case letters change. A byte of a multi-byte character is never alphanumeric there, so dropping a non-ASCII character as a whole gives the same stem.
- The tests for functions not in `main.py` (`create_directory`, `check_path`, `get_command`, `main(...)`) are not part of this model.
