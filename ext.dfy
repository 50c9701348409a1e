/** Extension extraction: `getExt` of package imageupload.
    The extension of a file name is the text after its last '.';
    a name without any '.' is its own extension. */
module Ext {

  /** Index of the last occurrence of `c` in `s`, or -1 when `c` does not occur. */
  function LastIndex(s: string, c: char): (i: int)
    ensures -1 <= i < |s|
    ensures i >= 0 ==> s[i] == c
    ensures forall j :: i < j < |s| ==> s[j] != c
  {
    if |s| == 0 then -1
    else if s[|s| - 1] == c then |s| - 1
    else LastIndex(s[..|s| - 1], c)
  }

  /** The extension of `name`: everything after the last '.', or all of `name`.
      It is a suffix of the name holding no '.', which is either the whole name
      (when the name has no '.') or is preceded by a '.'. */
  function GetExt(name: string): (ext: string)
    ensures |ext| <= |name| && name[|name| - |ext|..] == ext
    ensures '.' !in ext
    ensures '.' !in name ==> ext == name
    ensures '.' in name ==> |ext| < |name| && name[|name| - |ext| - 1] == '.'
  {
    name[LastIndex(name, '.') + 1..]
  }

  /** The converse of GetExt's contract: splitting a name at a '.' whose tail
      holds no further '.' yields exactly that tail as the extension. */
  lemma GetExtOfSplit(stem: string, ext: string)
    requires '.' !in ext
    ensures GetExt(stem + "." + ext) == ext
  {
    var name := stem + "." + ext;
    var i := LastIndex(name, '.');
    assert name[|stem|] == '.';
    assert forall j :: |stem| < j < |name| ==> name[j] == ext[j - |stem| - 1];
    assert i == |stem|;
    assert name[i + 1..] == ext;
  }

  /** TestGetExt, first row: the text after the dot. */
  lemma GetExtDotted()
    ensures GetExt("img.jpg") == "jpg"
  {
    GetExtOfSplit("img", "jpg");
    assert "img" + "." + "jpg" == "img.jpg";
  }

  /** TestGetExt, second row: no dot, so the whole name. */
  lemma GetExtUndotted()
    ensures GetExt("imgjpg") == "imgjpg"
  {
  }

  /** TestGetExt, third row: only the last dot counts. */
  lemma GetExtDoublyDotted()
    ensures GetExt("img.gif.jpg") == "jpg"
  {
    GetExtOfSplit("img.gif", "jpg");
    assert "img.gif" + "." + "jpg" == "img.gif.jpg";
  }
}
