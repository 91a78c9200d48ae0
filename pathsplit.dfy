/** `os.path.splitext` of the POSIX path module, as the conversion script uses it
    to find an entry's extension and its stem. The extension runs from the last
    `.` of the last path component; dots that begin the component do not start
    an extension, so `.png` and `..png` have none. */
module PathSplit {
  import opened Text

  /** `s.rfind(c)`: the index of the last `c` in `s`, or -1. */
  function LastIndexOf(s: string, c: char): (r: int)
    ensures -1 <= r < |s|
    ensures r >= 0 ==> s[r] == c
    ensures forall j :: r < j < |s| ==> s[j] != c
    decreases |s|
  {
    if s == [] then -1
    else if s[|s| - 1] == c then |s| - 1
    else LastIndexOf(s[..|s| - 1], c)
  }

  predicate AllDots(s: string)
  {
    forall i :: 0 <= i < |s| ==> s[i] == '.'
  }

  /** `os.path.splitext(p)`: the pair (root, ext). */
  function SplitExt(p: string): (string, string)
  {
    var sepIndex := LastIndexOf(p, '/');
    var dotIndex := LastIndexOf(p, '.');
    if dotIndex > sepIndex && !AllDots(p[sepIndex + 1..dotIndex]) then
      (p[..dotIndex], p[dotIndex..])
    else
      (p, "")
  }

  function Extension(p: string): string { SplitExt(p).1 }

  function Stem(p: string): string { SplitExt(p).0 }

  /** A value `splitext` can return as a non-empty extension: a dot followed by
      characters that are neither dots nor path separators. */
  predicate IsExtensionShape(e: string)
  {
    |e| >= 1 && e[0] == '.' && forall i :: 1 <= i < |e| ==> e[i] != '.' && e[i] != '/'
  }

  /** Independent statement of when `p` has an extension: some dot of the last
      path component is preceded, inside that component, by a character other
      than a dot. */
  ghost predicate HasExtension(p: string)
  {
    exists i, j :: 0 <= j < i < |p| && p[i] == '.' && p[j] != '.' && NoSlashFrom(p, j)
  }

  ghost predicate NoSlashFrom(p: string, j: int)
  {
    forall k :: 0 <= j <= k < |p| ==> p[k] != '/'
  }

  /** The split loses nothing, the extension is empty or has the shape above,
      it is non-empty exactly when `p` has an extension, and then it is the text
      from the last dot on. */
  lemma SplitExtSpec(p: string)
    ensures Stem(p) + Extension(p) == p
    ensures Extension(p) == "" || IsExtensionShape(Extension(p))
    ensures Extension(p) != "" <==> HasExtension(p)
    ensures Extension(p) != "" ==> Extension(p) == p[LastIndexOf(p, '.')..]
  {
    var sepIndex := LastIndexOf(p, '/');
    var dotIndex := LastIndexOf(p, '.');
    if Extension(p) != "" {
      assert p[..dotIndex] + p[dotIndex..] == p;
      ExtensionShape(p);
      HasExtensionIfSplit(p);
    } else if HasExtension(p) {
      SplitIfHasExtension(p);
    }
  }

  lemma ExtensionShape(p: string)
    requires Extension(p) != ""
    ensures IsExtensionShape(Extension(p))
  {
    var sepIndex := LastIndexOf(p, '/');
    var dotIndex := LastIndexOf(p, '.');
    var e := p[dotIndex..];
    assert e == Extension(p);
    forall i | 1 <= i < |e|
      ensures e[i] != '.' && e[i] != '/'
    {
      assert e[i] == p[dotIndex + i];
    }
  }

  lemma HasExtensionIfSplit(p: string)
    requires Extension(p) != ""
    ensures HasExtension(p)
  {
    var sepIndex := LastIndexOf(p, '/');
    var dotIndex := LastIndexOf(p, '.');
    var seg := p[sepIndex + 1..dotIndex];
    var k :| 0 <= k < |seg| && seg[k] != '.';
    var j := sepIndex + 1 + k;
    assert p[j] == seg[k];
    assert NoSlashFrom(p, j);
    assert 0 <= j < dotIndex < |p| && p[dotIndex] == '.' && p[j] != '.';
  }

  lemma SplitIfHasExtension(p: string)
    requires HasExtension(p)
    ensures Extension(p) != ""
  {
    var sepIndex := LastIndexOf(p, '/');
    var dotIndex := LastIndexOf(p, '.');
    var i, j :| 0 <= j < i < |p| && p[i] == '.' && p[j] != '.' && NoSlashFrom(p, j);
    assert dotIndex >= i;
    assert sepIndex < j;
    var seg := p[sepIndex + 1..dotIndex];
    assert seg[j - sepIndex - 1] == p[j];
    assert !AllDots(seg);
  }

  /** Appending an extension-shaped suffix to a name that has a non-dot
      character in its last component splits back into exactly those parts. */
  lemma SplitExtOfAppended(s: string, e: string, j: int)
    requires IsExtensionShape(e)
    requires 0 <= j < |s| && s[j] != '.' && NoSlashFrom(s, j)
    ensures SplitExt(s + e) == (s, e)
  {
    var p := s + e;
    var dotIndex := LastIndexOf(p, '.');
    var sepIndex := LastIndexOf(p, '/');
    assert p[|s|] == '.';
    assert dotIndex == |s|;
    assert sepIndex < j;
    var seg := p[sepIndex + 1..dotIndex];
    assert seg[j - sepIndex - 1] == s[j];
    assert p[..dotIndex] == s && p[dotIndex..] == e;
  }

  lemma {:induction false} LastIndexOfLower(s: string, c: char)
    requires !IsUpper(c) && !IsLower(c)
    ensures LastIndexOf(LowerStr(s), c) == LastIndexOf(s, c)
    decreases |s|
  {
    if s != [] {
      LowerPreimage(s[|s| - 1], c);
      LowerStrSlice(s, 0, |s| - 1);
      LastIndexOfLower(s[..|s| - 1], c);
    }
  }

  lemma AllDotsLower(s: string)
    ensures AllDots(LowerStr(s)) == AllDots(s)
  {
    forall k | 0 <= k < |s|
      ensures (LowerStr(s)[k] == '.') == (s[k] == '.')
    {
      LowerPreimage(s[k], '.');
    }
  }

  /** `splitext` commutes with `lower()`: lower-casing a name lower-cases its
      root and its extension and moves no boundary. */
  lemma SplitExtLower(p: string)
    ensures SplitExt(LowerStr(p)) == (LowerStr(Stem(p)), LowerStr(Extension(p)))
  {
    var q := LowerStr(p);
    LowerStrProperties(p);
    LastIndexOfLower(p, '/');
    LastIndexOfLower(p, '.');
    var sepIndex := LastIndexOf(p, '/');
    var dotIndex := LastIndexOf(p, '.');
    if dotIndex > sepIndex {
      LowerStrSlice(p, sepIndex + 1, dotIndex);
      AllDotsLower(p[sepIndex + 1..dotIndex]);
      assert AllDots(q[sepIndex + 1..dotIndex]) == AllDots(p[sepIndex + 1..dotIndex]);
      if !AllDots(p[sepIndex + 1..dotIndex]) {
        assert SplitExt(q) == (q[..dotIndex], q[dotIndex..]);
        LowerStrSlice(p, 0, dotIndex);
        LowerStrSlice(p, dotIndex, |p|);
        assert q[dotIndex..|p|] == q[dotIndex..];
        assert p[dotIndex..|p|] == p[dotIndex..];
      } else {
        assert SplitExt(q) == (q, "");
        assert LowerStr("") == "";
      }
    } else {
      assert SplitExt(q) == (q, "");
      assert LowerStr("") == "";
    }
  }

  /** The last occurrence is pinned down by the character there and the ones after it. */
  lemma LastIndexOfAt(s: string, c: char, i: int)
    requires 0 <= i < |s| && s[i] == c
    requires forall j :: i < j < |s| ==> s[j] != c
    ensures LastIndexOf(s, c) == i
  {
  }

  /** Leading dots do not start an extension. */
  lemma LeadingDotExample()
    ensures SplitExt(".png") == (".png", "")
  {
    LastIndexOfAt(".png", '.', 0);
  }

  lemma LeadingDotsExample()
    ensures SplitExt("..png") == ("..png", "")
  {
    LastIndexOfAt("..png", '.', 1);
    assert AllDots("..png"[0..1]);
  }

  /** Only the last extension is split off. */
  lemma LastDotExample()
    ensures SplitExt("a.b.png") == ("a.b", ".png")
  {
    assert "a.b" + ".png" == "a.b.png";
    SplitExtOfAppended("a.b", ".png", 0);
  }

  /** A name without a dot has no extension; a trailing dot is one. */
  lemma NoDotExample()
    ensures SplitExt("converted-text") == ("converted-text", "")
    ensures SplitExt("a.") == ("a", ".")
  {
    assert LastIndexOf("converted-text", '.') == -1;
    assert "a" + "." == "a.";
    SplitExtOfAppended("a", ".", 0);
  }
}
