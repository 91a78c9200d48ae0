/** constants.py: the path-lookup commands used to find the OCR binary, the name
    of its data-path environment variable, and the supported image extensions. */
module Constants {
  import opened Text
  import opened PathSplit

  const DefaultCheckCommand: string := "which"
  const WindowsCheckCommand: string := "where"
  const TesseractDataPathVar: string := "TESSDATA_PREFIX"

  /** The supported image extensions, in the order of constants.py:5-20. */
  const ValidImageExtensions: seq<string> := [
    ".jpg", ".jpeg", ".png", ".gif", ".bmp",
    ".tif", ".tiff",
    ".webp", ".heic", ".heif",
    ".tga", ".psd", ".pcx",
    ".pdf", ".jp2", ".j2k", ".jpf", ".jpx", ".jpm", ".mj2",
    ".pbm", ".pgm", ".ppm", ".pnm", ".pfm", ".pam",
    ".dib", ".rle", ".ico", ".cur"
  ]

  /** No two positions of `s` hold the same value. */
  predicate NoDuplicates(s: seq<string>)
  {
    forall i, j :: 0 <= i < j < |s| ==> s[i] != s[j]
  }

  /** The entry at `i` is lower-case, has the shape of an extension, and
      occurs nowhere after `i`. */
  predicate WellFormedAt(s: seq<string>, i: int)
    requires 0 <= i < |s|
  {
    IsLowerCase(s[i]) && IsExtensionShape(s[i]) &&
    forall j :: i < j < |s| ==> s[i] != s[j]
  }

  /** The first `k` entries are well formed in that sense. */
  predicate WellFormedUpTo(s: seq<string>, k: int)
  {
    forall i :: 0 <= i < k && i < |s| ==> WellFormedAt(s, i)
  }

  /** The two lookup commands are `where` on Windows and `which` elsewhere, and differ. */
  lemma CheckCommands()
    ensures DefaultCheckCommand == "which" && WindowsCheckCommand == "where"
    ensures DefaultCheckCommand != WindowsCheckCommand
  {
    assert DefaultCheckCommand[2] != WindowsCheckCommand[2];
  }

  // The list is checked one entry at a time, in a chain of thirty lemmas that
  // differ only in their index. Each of them compares one literal entry with the
  // ones after it, which is a small obligation. A single lemma over a symbolic
  // index, or one assertion over all thirty entries, makes the solver unfold and
  // compare every pair of literals at once, which does not fit the resource limit.
  lemma EntryRow0()
    requires WellFormedUpTo(ValidImageExtensions, 0)
    ensures WellFormedUpTo(ValidImageExtensions, 1)
  {
    assert WellFormedAt(ValidImageExtensions, 0);
  }

  lemma EntryRow1()
    requires WellFormedUpTo(ValidImageExtensions, 1)
    ensures WellFormedUpTo(ValidImageExtensions, 2)
  {
    assert WellFormedAt(ValidImageExtensions, 1);
  }

  lemma EntryRow2()
    requires WellFormedUpTo(ValidImageExtensions, 2)
    ensures WellFormedUpTo(ValidImageExtensions, 3)
  {
    assert WellFormedAt(ValidImageExtensions, 2);
  }

  lemma EntryRow3()
    requires WellFormedUpTo(ValidImageExtensions, 3)
    ensures WellFormedUpTo(ValidImageExtensions, 4)
  {
    assert WellFormedAt(ValidImageExtensions, 3);
  }

  lemma EntryRow4()
    requires WellFormedUpTo(ValidImageExtensions, 4)
    ensures WellFormedUpTo(ValidImageExtensions, 5)
  {
    assert WellFormedAt(ValidImageExtensions, 4);
  }

  lemma EntryRow5()
    requires WellFormedUpTo(ValidImageExtensions, 5)
    ensures WellFormedUpTo(ValidImageExtensions, 6)
  {
    assert WellFormedAt(ValidImageExtensions, 5);
  }

  lemma EntryRow6()
    requires WellFormedUpTo(ValidImageExtensions, 6)
    ensures WellFormedUpTo(ValidImageExtensions, 7)
  {
    assert WellFormedAt(ValidImageExtensions, 6);
  }

  lemma EntryRow7()
    requires WellFormedUpTo(ValidImageExtensions, 7)
    ensures WellFormedUpTo(ValidImageExtensions, 8)
  {
    assert WellFormedAt(ValidImageExtensions, 7);
  }

  lemma EntryRow8()
    requires WellFormedUpTo(ValidImageExtensions, 8)
    ensures WellFormedUpTo(ValidImageExtensions, 9)
  {
    assert WellFormedAt(ValidImageExtensions, 8);
  }

  lemma EntryRow9()
    requires WellFormedUpTo(ValidImageExtensions, 9)
    ensures WellFormedUpTo(ValidImageExtensions, 10)
  {
    assert WellFormedAt(ValidImageExtensions, 9);
  }

  lemma EntryRow10()
    requires WellFormedUpTo(ValidImageExtensions, 10)
    ensures WellFormedUpTo(ValidImageExtensions, 11)
  {
    assert WellFormedAt(ValidImageExtensions, 10);
  }

  lemma EntryRow11()
    requires WellFormedUpTo(ValidImageExtensions, 11)
    ensures WellFormedUpTo(ValidImageExtensions, 12)
  {
    assert WellFormedAt(ValidImageExtensions, 11);
  }

  lemma EntryRow12()
    requires WellFormedUpTo(ValidImageExtensions, 12)
    ensures WellFormedUpTo(ValidImageExtensions, 13)
  {
    assert WellFormedAt(ValidImageExtensions, 12);
  }

  lemma EntryRow13()
    requires WellFormedUpTo(ValidImageExtensions, 13)
    ensures WellFormedUpTo(ValidImageExtensions, 14)
  {
    assert WellFormedAt(ValidImageExtensions, 13);
  }

  lemma EntryRow14()
    requires WellFormedUpTo(ValidImageExtensions, 14)
    ensures WellFormedUpTo(ValidImageExtensions, 15)
  {
    assert WellFormedAt(ValidImageExtensions, 14);
  }

  lemma EntryRow15()
    requires WellFormedUpTo(ValidImageExtensions, 15)
    ensures WellFormedUpTo(ValidImageExtensions, 16)
  {
    assert WellFormedAt(ValidImageExtensions, 15);
  }

  lemma EntryRow16()
    requires WellFormedUpTo(ValidImageExtensions, 16)
    ensures WellFormedUpTo(ValidImageExtensions, 17)
  {
    assert WellFormedAt(ValidImageExtensions, 16);
  }

  lemma EntryRow17()
    requires WellFormedUpTo(ValidImageExtensions, 17)
    ensures WellFormedUpTo(ValidImageExtensions, 18)
  {
    assert WellFormedAt(ValidImageExtensions, 17);
  }

  lemma EntryRow18()
    requires WellFormedUpTo(ValidImageExtensions, 18)
    ensures WellFormedUpTo(ValidImageExtensions, 19)
  {
    assert WellFormedAt(ValidImageExtensions, 18);
  }

  lemma EntryRow19()
    requires WellFormedUpTo(ValidImageExtensions, 19)
    ensures WellFormedUpTo(ValidImageExtensions, 20)
  {
    assert WellFormedAt(ValidImageExtensions, 19);
  }

  lemma EntryRow20()
    requires WellFormedUpTo(ValidImageExtensions, 20)
    ensures WellFormedUpTo(ValidImageExtensions, 21)
  {
    assert WellFormedAt(ValidImageExtensions, 20);
  }

  lemma EntryRow21()
    requires WellFormedUpTo(ValidImageExtensions, 21)
    ensures WellFormedUpTo(ValidImageExtensions, 22)
  {
    assert WellFormedAt(ValidImageExtensions, 21);
  }

  lemma EntryRow22()
    requires WellFormedUpTo(ValidImageExtensions, 22)
    ensures WellFormedUpTo(ValidImageExtensions, 23)
  {
    assert WellFormedAt(ValidImageExtensions, 22);
  }

  lemma EntryRow23()
    requires WellFormedUpTo(ValidImageExtensions, 23)
    ensures WellFormedUpTo(ValidImageExtensions, 24)
  {
    assert WellFormedAt(ValidImageExtensions, 23);
  }

  lemma EntryRow24()
    requires WellFormedUpTo(ValidImageExtensions, 24)
    ensures WellFormedUpTo(ValidImageExtensions, 25)
  {
    assert WellFormedAt(ValidImageExtensions, 24);
  }

  lemma EntryRow25()
    requires WellFormedUpTo(ValidImageExtensions, 25)
    ensures WellFormedUpTo(ValidImageExtensions, 26)
  {
    assert WellFormedAt(ValidImageExtensions, 25);
  }

  lemma EntryRow26()
    requires WellFormedUpTo(ValidImageExtensions, 26)
    ensures WellFormedUpTo(ValidImageExtensions, 27)
  {
    assert WellFormedAt(ValidImageExtensions, 26);
  }

  lemma EntryRow27()
    requires WellFormedUpTo(ValidImageExtensions, 27)
    ensures WellFormedUpTo(ValidImageExtensions, 28)
  {
    assert WellFormedAt(ValidImageExtensions, 27);
  }

  lemma EntryRow28()
    requires WellFormedUpTo(ValidImageExtensions, 28)
    ensures WellFormedUpTo(ValidImageExtensions, 29)
  {
    assert WellFormedAt(ValidImageExtensions, 28);
  }

  lemma EntryRow29()
    requires WellFormedUpTo(ValidImageExtensions, 29)
    ensures WellFormedUpTo(ValidImageExtensions, 30)
  {
    assert WellFormedAt(ValidImageExtensions, 29);
  }

  lemma ValidImageExtensionsWellFormed()
    ensures WellFormedUpTo(ValidImageExtensions, 30)
  {
    EntryRow0();
    EntryRow1();
    EntryRow2();
    EntryRow3();
    EntryRow4();
    EntryRow5();
    EntryRow6();
    EntryRow7();
    EntryRow8();
    EntryRow9();
    EntryRow10();
    EntryRow11();
    EntryRow12();
    EntryRow13();
    EntryRow14();
    EntryRow15();
    EntryRow16();
    EntryRow17();
    EntryRow18();
    EntryRow19();
    EntryRow20();
    EntryRow21();
    EntryRow22();
    EntryRow23();
    EntryRow24();
    EntryRow25();
    EntryRow26();
    EntryRow27();
    EntryRow28();
    EntryRow29();
  }

  /** Thirty entries, no two alike. */
  lemma ValidImageExtensionsDistinct()
    ensures |ValidImageExtensions| == 30
    ensures NoDuplicates(ValidImageExtensions)
  {
    ValidImageExtensionsWellFormed();
    var s := ValidImageExtensions;
    forall i, j | 0 <= i < j < |s|
      ensures s[i] != s[j]
    {
      assert WellFormedAt(s, i);
    }
  }

  /** Every entry is lower-case, so comparing a lower-cased extension with the
      list matches regardless of case. */
  lemma ValidImageExtensionsLowerCase()
    ensures forall e :: e in ValidImageExtensions ==> IsLowerCase(e)
  {
    ValidImageExtensionsWellFormed();
    var s := ValidImageExtensions;
    forall e | e in s
      ensures IsLowerCase(e)
    {
      var i :| 0 <= i < |s| && s[i] == e;
      assert WellFormedAt(s, i);
    }
  }

  /** Every entry is a dot followed by no further dot or separator: a value
      `splitext` can return as an extension. */
  lemma ValidImageExtensionsShape()
    ensures forall e :: e in ValidImageExtensions ==> IsExtensionShape(e)
  {
    ValidImageExtensionsWellFormed();
    var s := ValidImageExtensions;
    forall e | e in s
      ensures IsExtensionShape(e)
    {
      var i :| 0 <= i < |s| && s[i] == e;
      assert WellFormedAt(s, i);
    }
  }
}
