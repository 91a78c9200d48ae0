/** main.py: the conversion script. For every entry of the input directory
    whose extension, lower-cased, is one of the image extensions, it runs OCR
    on `path/entry`, writes the text to `path/converted-text/<stem>.txt`, where
    `<stem>` is the entry's name without its last extension and with every
    character other than an ASCII letter, digit or `-` removed, and prints a
    numbered progress line. */
module Convert {
  import opened Sequences
  import opened Text
  import opened PathSplit
  import Constants

  /** The script's own list of image extensions (main.py:13). */
  const ValidImages: seq<string> := [".jpg", ".gif", ".png", ".tga", ".tif", ".bmp"]

  /** The directory the script creates inside the input directory. */
  const OutputFolderName: string := "converted-text"

  /** The output directory: the input directory, then the output folder, then a separator. */
  function OutputDirectory(path: string): string
  {
    path + "/" + OutputFolderName + "/"
  }

  /** The path the OCR engine reads: the input directory, a separator, the entry. */
  function ImagePath(path: string, f: string): string
  {
    path + "/" + f
  }

  // ---- which entries are processed ----

  /** The entry is processed: its extension, lower-cased, is one of `exts`. */
  predicate IsAccepted(exts: seq<string>, f: string)
  {
    LowerStr(Extension(f)) in exts
  }

  /** The processed entries of a listing, in listing order. */
  function Selected(exts: seq<string>, listing: seq<string>): seq<string>
  {
    Filter(listing, f => IsAccepted(exts, f))
  }

  /** Two names that differ only in the case of their letters are treated alike. */
  lemma AcceptanceIgnoresCase(exts: seq<string>, f: string, g: string)
    requires LowerStr(f) == LowerStr(g)
    ensures IsAccepted(exts, f) == IsAccepted(exts, g)
  {
    SplitExtLower(f);
    SplitExtLower(g);
  }

  /** With no empty string in the list, a name without an extension is never processed. */
  lemma NoExtensionNotAccepted(exts: seq<string>, f: string)
    requires "" !in exts
    requires Extension(f) == ""
    ensures !IsAccepted(exts, f)
  {
    assert LowerStr("") == "";
  }

  /** The folder the script creates has no extension, so it is never processed
      as an image even when it shows up in the listing. */
  lemma OutputFolderNotAccepted(exts: seq<string>)
    requires "" !in exts
    ensures !IsAccepted(exts, OutputFolderName)
  {
    NoDotExample();
    NoExtensionNotAccepted(exts, OutputFolderName);
  }

  /** A list entry that is not lower-case can never match, because the
      extension is lower-cased before the comparison. */
  lemma UpperCaseEntryNeverMatches(e: string, f: string)
    requires !IsLowerCase(e)
    ensures LowerStr(Extension(f)) != e
  {
    LowerStrProperties(Extension(f));
  }

  /** For an extension-shaped, lower-case list entry `e`, every name made of a
      stem with a non-dot character in its last component followed by `e` in
      any mixture of cases is processed, and its stem is that stem. */
  lemma AcceptsEveryCasing(exts: seq<string>, e: string, stem: string, j: int, v: string)
    requires e in exts && IsExtensionShape(e)
    requires LowerStr(v) == e
    requires 0 <= j < |stem| && stem[j] != '.' && NoSlashFrom(stem, j)
    ensures IsAccepted(exts, stem + v)
    ensures Stem(stem + v) == stem
  {
    LowerStrProperties(v);
    forall i | 0 <= i < |v|
      ensures (v[i] == '.') == (e[i] == '.') && (v[i] == '/') == (e[i] == '/')
    {
      LowerPreimage(v[i], '.');
      LowerPreimage(v[i], '/');
    }
    assert IsExtensionShape(v);
    SplitExtOfAppended(stem, v, j);
  }

  /** The same for every entry of the larger list in constants.py. */
  lemma ValidImageExtensionsAcceptEveryCasing(stem: string, j: int, v: string)
    requires LowerStr(v) in Constants.ValidImageExtensions
    requires 0 <= j < |stem| && stem[j] != '.' && NoSlashFrom(stem, j)
    ensures IsAccepted(Constants.ValidImageExtensions, stem + v)
    ensures Stem(stem + v) == stem
  {
    Constants.ValidImageExtensionsShape();
    AcceptsEveryCasing(Constants.ValidImageExtensions, LowerStr(v), stem, j, v);
  }

  /** The script's list has the properties the constants.py list has, and the
      constants.py list contains every entry of it. */
  lemma ValidImagesProperties()
    ensures |ValidImages| == 6 && Constants.NoDuplicates(ValidImages)
    ensures forall e :: e in ValidImages ==> IsLowerCase(e) && IsExtensionShape(e)
  {
  }

  lemma ValidImageExtensionsExtendValidImages()
    ensures forall e :: e in ValidImages ==> e in Constants.ValidImageExtensions
  {
  }

  /** The processed entries are exactly the accepted ones, in listing order. */
  lemma SelectedSpec(exts: seq<string>, listing: seq<string>)
    ensures IsSubsequence(Selected(exts, listing), listing)
    ensures forall f :: f in Selected(exts, listing) <==> f in listing && IsAccepted(exts, f)
  {
    FilterSubsequence(listing, f => IsAccepted(exts, f));
  }

  /** One more entry advances the number of processed entries by one exactly
      when that entry is accepted; skipped entries do not count. */
  lemma SelectedSnoc(exts: seq<string>, listing: seq<string>, f: string)
    ensures Selected(exts, listing + [f])
         == Selected(exts, listing) + (if IsAccepted(exts, f) then [f] else [])
    ensures |Selected(exts, listing + [f])|
         == |Selected(exts, listing)| + (if IsAccepted(exts, f) then 1 else 0)
  {
    FilterSnoc(listing, f, g => IsAccepted(exts, g));
  }

  // ---- output names ----

  /** A character the stem keeps: an ASCII letter or digit, or a hyphen. */
  predicate IsStemChar(c: char)
  {
    IsAlnum(c) || c == '-'
  }

  /** The sanitised stem: only letters, digits and `-`, and never longer than the stem. */
  function Sanitize(stem: string): (r: string)
    ensures |r| <= |stem|
    ensures forall i :: 0 <= i < |r| ==> IsStemChar(r[i])
  {
    Filter(stem, IsStemChar)
  }

  /** Sanitising deletes characters and keeps their order, and it keeps every
      letter, digit and `-` of the stem as often as it occurs. */
  lemma SanitizeKeepsStemChars(stem: string)
    ensures IsSubsequence(Sanitize(stem), stem)
    ensures forall c :: multiset(Sanitize(stem))[c] == if IsStemChar(c) then multiset(stem)[c] else 0
  {
    FilterSubsequence(stem, IsStemChar);
    FilterMultiset(stem, IsStemChar);
  }

  /** A stem that is already clean is left as it is, so sanitising twice is sanitising once. */
  lemma SanitizeClean(stem: string)
    requires forall i :: 0 <= i < |stem| ==> IsStemChar(stem[i])
    ensures Sanitize(stem) == stem
  {
    FilterKeepsAll(stem, IsStemChar);
  }

  lemma SanitizeIdempotent(stem: string)
    ensures Sanitize(Sanitize(stem)) == Sanitize(stem)
  {
    FilterIdempotent(stem, IsStemChar);
  }

  /** Sanitising works character by character. */
  lemma SanitizeConcat(a: string, b: string)
    ensures Sanitize(a + b) == Sanitize(a) + Sanitize(b)
  {
    FilterConcat(a, b, IsStemChar);
  }

  /** The output file of an entry: the output directory, the sanitised stem, then `.txt`. */
  function OutputPath(path: string, f: string): (r: string)
    ensures |r| >= |OutputDirectory(path)| + 4
    ensures r[..|OutputDirectory(path)|] == OutputDirectory(path)
    ensures r[|r| - 4..] == ".txt"
    ensures forall i :: |OutputDirectory(path)| <= i < |r| - 4 ==> IsStemChar(r[i])
  {
    var d, s := OutputDirectory(path), Sanitize(Stem(f));
    ThreeParts(d, s, ".txt");
    d + s + ".txt"
  }

  lemma ThreeParts(a: string, b: string, c: string)
    ensures var r := a + b + c;
      |r| == |a| + |b| + |c| && r[..|a|] == a && r[|a| + |b|..] == c &&
      forall i :: |a| <= i < |a| + |b| ==> r[i] == b[i - |a|]
  {
  }

  lemma SanitizeDottedStem()
    ensures Sanitize("a.b") == "ab"
  {
    assert Sanitize("a.b") == Filter("a.b", IsStemChar) == "ab";
  }

  /** Only the last extension is removed before sanitising: `a.b.png` gives `ab.txt`. */
  lemma OutputPathOfSeveralDots(path: string)
    ensures OutputPath(path, "a.b.png") == OutputDirectory(path) + "ab.txt"
  {
    LastDotExample();
    SanitizeDottedStem();
    assert OutputDirectory(path) + "ab" + ".txt" == OutputDirectory(path) + "ab.txt";
  }

  // Each literal name is split in a lemma of its own: with both names, or with
  // the split inlined into its caller, the obligation does not fit the
  // resource limit.
  lemma SpacedNameSplit()
    ensures SplitExt("a b.png") == ("a b", ".png")
  {
    assert "a b.png" == "a b" + ".png";
    SplitExtOfAppended("a b", ".png", 0);
  }

  lemma PlainNameSplit()
    ensures SplitExt("ab.jpg") == ("ab", ".jpg")
  {
    assert "ab.jpg" == "ab" + ".jpg";
    SplitExtOfAppended("ab", ".jpg", 0);
  }

  lemma LowerCaseExtensions()
    ensures LowerStr(".png") == ".png" && LowerStr(".jpg") == ".jpg"
  {
  }

  /** `a b.png` and `ab.jpg` are both processed. */
  lemma CollidingNamesAccepted()
    ensures IsAccepted(ValidImages, "a b.png") && IsAccepted(ValidImages, "ab.jpg")
  {
    SpacedNameSplit();
    PlainNameSplit();
    LowerCaseExtensions();
  }

  lemma SpacedNameOutput(path: string)
    ensures OutputPath(path, "a b.png") == OutputDirectory(path) + "ab.txt"
  {
    SpacedNameSplit();
    assert Sanitize("a b") == Filter("a b", IsStemChar) == "ab";
    assert OutputDirectory(path) + "ab" + ".txt" == OutputDirectory(path) + "ab.txt";
  }

  lemma PlainNameOutput(path: string)
    ensures OutputPath(path, "ab.jpg") == OutputDirectory(path) + "ab.txt"
  {
    PlainNameSplit();
    assert Sanitize("ab") == Filter("ab", IsStemChar) == "ab";
    assert OutputDirectory(path) + "ab" + ".txt" == OutputDirectory(path) + "ab.txt";
  }

  /** Different entries can share an output path: `a b.png` and `ab.jpg` both
      become `ab.txt`, and both are processed. */
  lemma OutputPathNotInjective(path: string)
    ensures "a b.png" != "ab.jpg"
    ensures IsAccepted(ValidImages, "a b.png") && IsAccepted(ValidImages, "ab.jpg")
    ensures OutputPath(path, "a b.png") == OutputPath(path, "ab.jpg") == OutputDirectory(path) + "ab.txt"
  {
    assert |"a b.png"| != |"ab.jpg"|;
    CollidingNamesAccepted();
    SpacedNameOutput(path);
    PlainNameOutput(path);
  }

  // ---- progress messages ----

  /** The progress line printed after the `count`-th completed file. */
  function ProgressMessage(count: nat): string
  {
    Decimal(count) + (if count == 1 then " file completed" else " files completed")
  }

  /** The line starts with the numeral of `count` and uses "file" exactly when
      `count` is 1 and "files" otherwise. */
  lemma ProgressMessageWording(count: nat)
    ensures var m, n := ProgressMessage(count), |Decimal(count)|;
      n <= |m| && DecimalValue(m[..n]) == count &&
      (m[n..] == " file completed" <==> count == 1) &&
      (m[n..] == " files completed" <==> count != 1)
  {
    var m, n := ProgressMessage(count), |Decimal(count)|;
    assert m[..n] == Decimal(count);
    DecimalRoundTrip(count);
    assert " file completed" != " files completed" by {
      assert |" file completed"| != |" files completed"|;
    }
  }

  /** The lines printed for the first `n` completed files. */
  function ProgressMessages(n: nat): seq<string>
  {
    seq(n, k requires 0 <= k < n => ProgressMessage(k + 1))
  }

  // ---- written files ----

  /** The (output path, text) pairs the script writes for the processed entries,
      in order; `ocr` stands for the OCR engine, a function of the image path. */
  function Writes(path: string, ocr: string -> string, selected: seq<string>): seq<(string, string)>
  {
    seq(|selected|, k requires 0 <= k < |selected| =>
      (OutputPath(path, selected[k]), ocr(ImagePath(path, selected[k]))))
  }

  /** The files after writing `ws` in order over `before`; each write replaces
      what was there (open mode "w+"). Paths are compared as strings, as on a
      case-sensitive file system. */
  function FilesAfter(before: map<string, string>, ws: seq<(string, string)>): map<string, string>
    decreases |ws|
  {
    if ws == [] then before
    else FilesAfter(before, ws[..|ws| - 1])[ws[|ws| - 1].0 := ws[|ws| - 1].1]
  }

  /** The index of the last write to `key`, or -1. */
  function LastWriteTo(ws: seq<(string, string)>, key: string): (r: int)
    ensures -1 <= r < |ws|
    ensures r >= 0 ==> ws[r].0 == key
    ensures forall i :: r < i < |ws| ==> ws[i].0 != key
    decreases |ws|
  {
    if ws == [] then -1
    else if ws[|ws| - 1].0 == key then |ws| - 1
    else LastWriteTo(ws[..|ws| - 1], key)
  }

  /** A file holds the text of the last write to it; a file nobody wrote to is
      as it was. */
  lemma {:induction false} FilesAfterLookup(before: map<string, string>, ws: seq<(string, string)>, key: string)
    ensures var files, i := FilesAfter(before, ws), LastWriteTo(ws, key);
      if i >= 0 then key in files && files[key] == ws[i].1
      else (key in files <==> key in before) && (key in before ==> files[key] == before[key])
    decreases |ws|
  {
    if ws != [] {
      FilesAfterLookup(before, ws[..|ws| - 1], key);
    }
  }

  /** Writing the same sequence a second time changes nothing. */
  lemma FilesAfterIdempotent(before: map<string, string>, ws: seq<(string, string)>)
    ensures FilesAfter(FilesAfter(before, ws), ws) == FilesAfter(before, ws)
  {
    var once := FilesAfter(before, ws);
    var twice := FilesAfter(once, ws);
    forall key
      ensures (key in twice <==> key in once) && (key in once ==> twice[key] == once[key])
    {
      FilesAfterLookup(before, ws, key);
      FilesAfterLookup(once, ws, key);
    }
  }

  /** The output paths of the processed entries, in order. */
  function OutputPaths(path: string, selected: seq<string>): seq<string>
  {
    seq(|selected|, k requires 0 <= k < |selected| => OutputPath(path, selected[k]))
  }

  /** The output folder is created before the directory is listed, so every
      listing holds it; it is never processed, so a listing processes the same
      entries as it would without it. */
  lemma ListedOutputFolderIgnored(exts: seq<string>, l1: seq<string>, l2: seq<string>)
    requires "" !in exts
    ensures Selected(exts, l1 + [OutputFolderName] + l2) == Selected(exts, l1 + l2)
  {
    var keep := f => IsAccepted(exts, f);
    FilterConcat(l1, l2, keep);
    FilterConcat(l1 + [OutputFolderName], l2, keep);
    OutputFolderNotAccepted(exts);
    FilterSnoc(l1, OutputFolderName, keep);
  }

  /** Running the script a second time over the same listing (the same entries,
      the output folder among them, in the same order) with the same OCR engine
      leaves every file as the first run left it. `ocr` is one function, so the
      same image path yields the same text on both runs. The order matters:
      listing two colliding entries the other way round changes the shared file
      (see `LaterCollidingEntryWins`). */
  lemma RerunChangesNothing(path: string, exts: seq<string>, ocr: string -> string,
                            before: map<string, string>, l1: seq<string>, l2: seq<string>)
    requires "" !in exts
    ensures var listing := l1 + [OutputFolderName] + l2;
      var first := FilesAfter(before, Writes(path, ocr, Selected(exts, listing)));
      first == FilesAfter(before, Writes(path, ocr, Selected(exts, l1 + l2))) &&
      FilesAfter(first, Writes(path, ocr, Selected(exts, listing))) == first
  {
    ListedOutputFolderIgnored(exts, l1, l2);
    FilesAfterIdempotent(before, Writes(path, ocr, Selected(exts, l1 + [OutputFolderName] + l2)));
  }

  /** Two accepted entries are both processed, in listing order. */
  lemma SelectedPair(exts: seq<string>, f: string, g: string)
    requires IsAccepted(exts, f) && IsAccepted(exts, g)
    ensures Selected(exts, [f, g]) == [f, g]
  {
    SelectedSnoc(exts, [], f);
    SelectedSnoc(exts, [f], g);
    assert [] + [f] == [f];
    assert [f] + [g] == [f, g];
  }

  /** In the two-entry listing `[f, g]` of processed entries with the same output
      path, the later one's text is what the file holds (as for `a b.png`
      followed by `ab.jpg`). */
  lemma LaterCollidingEntryWins(path: string, exts: seq<string>, ocr: string -> string,
                                before: map<string, string>, f: string, g: string)
    requires IsAccepted(exts, f) && IsAccepted(exts, g)
    requires OutputPath(path, f) == OutputPath(path, g)
    ensures var files := FilesAfter(before, Writes(path, ocr, Selected(exts, [f, g])));
      OutputPath(path, g) in files && files[OutputPath(path, g)] == ocr(ImagePath(path, g))
  {
    SelectedPair(exts, f, g);
    var ws := Writes(path, ocr, [f, g]);
    assert |ws| == 2 && ws[1] == (OutputPath(path, g), ocr(ImagePath(path, g)));
  }

  /** One more processed entry adds one output path, one write and one progress line. */
  lemma OutputPathsSnoc(path: string, selected: seq<string>, f: string)
    ensures OutputPaths(path, selected + [f]) == OutputPaths(path, selected) + [OutputPath(path, f)]
  {
  }

  lemma WritesSnoc(path: string, ocr: string -> string, selected: seq<string>, f: string)
    ensures Writes(path, ocr, selected + [f])
         == Writes(path, ocr, selected) + [(OutputPath(path, f), ocr(ImagePath(path, f)))]
  {
  }

  lemma ProgressMessagesSnoc(n: nat)
    ensures ProgressMessages(n + 1) == ProgressMessages(n) + [ProgressMessage(n + 1)]
  {
  }

  lemma FilesAfterSnoc(before: map<string, string>, ws: seq<(string, string)>, w: (string, string))
    ensures FilesAfter(before, ws + [w]) == FilesAfter(before, ws)[w.0 := w.1]
  {
    assert (ws + [w])[..|ws|] == ws;
  }

  // ---- the script's loop ----

  /** What the loop has produced after the first `i` entries of the listing:
      `sel` are the entries it accepted, `count` is one more than their number,
      and the paths written, the files and the progress lines are those of `sel`. */
  ghost predicate LoopState(path: string, listing: seq<string>, exts: seq<string>,
                            ocr: string -> string, before: map<string, string>, i: int,
                            sel: seq<string>, written: seq<string>, files: map<string, string>,
                            messages: seq<string>, count: int)
  {
    0 <= i <= |listing| &&
    sel == Selected(exts, listing[..i]) && count == |sel| + 1 &&
    written == OutputPaths(path, sel) && messages == ProgressMessages(|sel|) &&
    files == FilesAfter(before, Writes(path, ocr, sel))
  }

  /** Once the whole listing is processed, the loop's state is the one the
      script promises: one output path and one progress line per accepted entry. */
  lemma LoopDone(path: string, listing: seq<string>, exts: seq<string>,
                 ocr: string -> string, before: map<string, string>,
                 sel: seq<string>, written: seq<string>, files: map<string, string>,
                 messages: seq<string>, count: int)
    requires LoopState(path, listing, exts, ocr, before, |listing|, sel, written, files, messages, count)
    ensures count == |Selected(exts, listing)| + 1
    ensures |written| == count - 1 && |messages| == count - 1
    ensures forall k :: 0 <= k < |written| ==> written[k] == OutputPath(path, Selected(exts, listing)[k])
    ensures forall k :: 0 <= k < |messages| ==> messages[k] == ProgressMessage(k + 1)
    ensures files == FilesAfter(before, Writes(path, ocr, Selected(exts, listing)))
  {
    assert listing[..|listing|] == listing;
  }

  /** An entry whose extension is not accepted leaves everything as it was. */
  lemma LoopSkip(path: string, listing: seq<string>, exts: seq<string>,
                 ocr: string -> string, before: map<string, string>, i: int,
                 sel: seq<string>, written: seq<string>, files: map<string, string>,
                 messages: seq<string>, count: int)
    requires 0 <= i < |listing| && !IsAccepted(exts, listing[i])
    requires LoopState(path, listing, exts, ocr, before, i, sel, written, files, messages, count)
    ensures LoopState(path, listing, exts, ocr, before, i + 1, sel, written, files, messages, count)
  {
    var done, f := listing[..i], listing[i];
    TakeSnoc(listing, i);
    SelectedSnoc(exts, done, f);
    assert Selected(exts, done + [f]) == Selected(exts, done);
  }

  /** An accepted entry adds its output path, its file and the next progress line. */
  lemma LoopAccept(path: string, listing: seq<string>, exts: seq<string>,
                   ocr: string -> string, before: map<string, string>, i: int,
                   sel: seq<string>, written: seq<string>, files: map<string, string>,
                   messages: seq<string>, count: int)
    requires 0 <= i < |listing| && IsAccepted(exts, listing[i])
    requires LoopState(path, listing, exts, ocr, before, i, sel, written, files, messages, count)
    ensures LoopState(path, listing, exts, ocr, before, i + 1, sel + [listing[i]],
                      written + [OutputPath(path, listing[i])],
                      files[OutputPath(path, listing[i]) := ocr(ImagePath(path, listing[i]))],
                      messages + [ProgressMessage(count)], count + 1)
  {
    var f := listing[i];
    TakeSnoc(listing, i);
    SelectedSnoc(exts, listing[..i], f);
    OutputPathsSnoc(path, sel, f);
    WritesSnoc(path, ocr, sel, f);
    ProgressMessagesSnoc(|sel|);
    FilesAfterSnoc(before, Writes(path, ocr, sel), (OutputPath(path, f), ocr(ImagePath(path, f))));
  }

  /** The loop over the directory listing (main.py:26-54). `listing` is the directory listing,
      `exts` the extension list, `ocr` the OCR engine and `before` the files
      already present. Returns the output paths in the order written, the files
      afterwards, the progress lines printed and the final value of `count`. */
  method ConvertDirectory(path: string, listing: seq<string>, exts: seq<string>,
                          ocr: string -> string, before: map<string, string>)
    returns (written: seq<string>, files: map<string, string>, messages: seq<string>, count: int)
    ensures count == |Selected(exts, listing)| + 1
    ensures |written| == count - 1 && |messages| == count - 1
    ensures forall k :: 0 <= k < |written| ==> written[k] == OutputPath(path, Selected(exts, listing)[k])
    ensures forall k :: 0 <= k < |messages| ==> messages[k] == ProgressMessage(k + 1)
    ensures files == FilesAfter(before, Writes(path, ocr, Selected(exts, listing)))
  {
    var directoryPath := OutputDirectory(path);
    count := 1;
    written, files, messages := [], before, [];
    ghost var sel: seq<string> := [];
    for i := 0 to |listing|
      invariant LoopState(path, listing, exts, ocr, before, i, sel, written, files, messages, count)
    {
      var f := listing[i];
      var ext := Extension(f);
      if LowerStr(ext) !in exts {
        LoopSkip(path, listing, exts, ocr, before, i, sel, written, files, messages, count);
        continue;
      }
      LoopAccept(path, listing, exts, ocr, before, i, sel, written, files, messages, count);
      var imageFileName := ImagePath(path, f);
      var text := ocr(imageFileName);
      var filename := Stem(f);
      filename := Sanitize(filename);
      var textFilePath := directoryPath + filename + ".txt";
      assert textFilePath == OutputPath(path, f);
      files := files[textFilePath := text];
      written := written + [textFilePath];
      messages := messages + [ProgressMessage(count)];
      count := count + 1;
      sel := sel + [f];
    }
    LoopDone(path, listing, exts, ocr, before, sel, written, files, messages, count);
  }
}
