/** The parts of Python's `pathlib.PurePath` that the attachment classifier uses: the final
    component (`name`) and its extension (`suffix`). */
module PurePath {
  import Ascii

  /** Index of the last occurrence of `c` in `s`, or -1 (Python's `str.rfind`). */
  function LastIndexOf(s: string, c: char): (i: int)
    ensures -1 <= i < |s|
    ensures i >= 0 ==> s[i] == c
    ensures forall j :: i < j < |s| ==> s[j] != c
  {
    if s == [] then -1
    else if s[|s| - 1] == c then |s| - 1
    else LastIndexOf(s[..|s| - 1], c)
  }

  /** The final path component: everything after the last '/'. */
  function Name(path: string): (n: string)
    ensures '/' !in n
    ensures |n| <= |path|
  {
    path[LastIndexOf(path, '/') + 1..]
  }

  /** The path is its directory part, then the final component; the directory part, when there
      is one, ends with '/'. */
  lemma NameIsFinalComponent(path: string)
    ensures var n := Name(path);
      path == path[..|path| - |n|] + n && (|n| < |path| ==> path[|path| - |n| - 1] == '/')
  {
  }

  /** The extension of a file name, dot included, or "" when it has none. As in pathlib, a
      dot that starts the name (".png") or ends it ("a.") gives no extension. */
  function Extension(name: string): (x: string)
    ensures x == "" || (|x| >= 2 && x[0] == '.' && '.' !in x[1..])
    ensures |x| < |name| || x == ""
  {
    var i := LastIndexOf(name, '.');
    if 0 < i < |name| - 1 then name[i..] else ""
  }

  /** `PurePath(path).suffix`: the extension of the final component. */
  function Suffix(path: string): (x: string)
    ensures '/' !in x
  {
    Extension(Name(path))
  }

  /** A name has an extension exactly when its last dot is neither its first nor its last
      character, and the extension is then the name's tail from that dot. */
  lemma ExtensionFromLastDot(name: string)
    ensures Extension(name) != "" <==>
      exists i :: 0 < i < |name| - 1 && name[i] == '.' && forall j :: i < j < |name| ==> name[j] != '.'
    ensures Extension(name) != "" ==> name == name[..|name| - |Extension(name)|] + Extension(name)
  {
    var k := LastIndexOf(name, '.');
    if Extension(name) != "" {
      assert 0 < k < |name| - 1 && name[k] == '.';
      assert name == name[..k] + name[k..];
    } else {
      forall i | 0 < i < |name| - 1 && name[i] == '.'
        ensures exists j :: i < j < |name| && name[j] == '.'
      {
        assert i <= k;
        assert i != k;
      }
    }
  }

  /** Lower-casing leaves the last position of a non-letter unchanged. */
  lemma {:induction false} LastIndexOfLower(s: string, c: char)
    requires !Ascii.IsLower(c) && !Ascii.IsUpper(c)
    ensures LastIndexOf(Ascii.Lower(s), c) == LastIndexOf(s, c)
  {
    if s != [] {
      var l := Ascii.Lower(s);
      Ascii.LowerCharPreimage(c, s[|s| - 1]);
      if s[|s| - 1] != c {
        Ascii.LowerSlice(s, 0, |s| - 1);
        LastIndexOfLower(s[..|s| - 1], c);
      }
    }
  }

  /** Lower-casing commutes with taking the final component. */
  lemma NameLower(path: string)
    ensures Name(Ascii.Lower(path)) == Ascii.Lower(Name(path))
  {
    LastIndexOfLower(path, '/');
    Ascii.LowerSlice(path, LastIndexOf(path, '/') + 1, |path|);
  }

  /** Lower-casing commutes with taking the extension of a name. */
  lemma ExtensionLower(name: string)
    ensures Extension(Ascii.Lower(name)) == Ascii.Lower(Extension(name))
  {
    LastIndexOfLower(name, '.');
    var i := LastIndexOf(name, '.');
    if 0 < i < |name| - 1 {
      Ascii.LowerSlice(name, i, |name|);
    }
  }

  /** Lower-casing a path and then taking its extension is taking the extension and then
      lower-casing it: the classifier may do either. */
  lemma SuffixLower(path: string)
    ensures Suffix(Ascii.Lower(path)) == Ascii.Lower(Suffix(path))
  {
    NameLower(path);
    ExtensionLower(Name(path));
  }

  /** Paths that differ only in letter case have extensions that differ only in letter case. */
  lemma SuffixIgnoresCase(path1: string, path2: string)
    requires Ascii.Lower(path1) == Ascii.Lower(path2)
    ensures Ascii.Lower(Suffix(path1)) == Ascii.Lower(Suffix(path2))
  {
    SuffixLower(path1);
    SuffixLower(path2);
    Ascii.LowerIdempotent(Suffix(path1));
    Ascii.LowerIdempotent(Suffix(path2));
  }

  /** A plain file name whose last dot is neither its first nor its last character has the
      extension that starts at that dot. */
  lemma SuffixOfPlainName(name: string, i: nat)
    requires '/' !in name && 0 < i < |name| - 1 && name[i] == '.'
    requires forall j :: i < j < |name| ==> name[j] != '.'
    ensures Suffix(name) == name[i..]
  {
    assert Name(name) == name;
  }

  /** A plain file name has a suffix exactly when its last dot is neither its first nor its
      last character: ".png", "a." and "README" have none. */
  lemma SuffixNonEmptyIff(name: string)
    requires '/' !in name
    ensures Suffix(name) != "" <==>
      exists i :: 0 < i < |name| - 1 && name[i] == '.' && forall j :: i < j < |name| ==> name[j] != '.'
  {
    assert Name(name) == name;
    ExtensionFromLastDot(name);
  }
}
