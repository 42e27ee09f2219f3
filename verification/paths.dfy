/** The part of `pathlib.Path` the program uses: a file's last component, its
    suffix (the extension, dot included) and its stem. */
module Paths {

  /** A path as a parent directory and a final component. Equality of paths is
      equality of both parts. */
  datatype Path = Path(parent: string, name: string)

  /** The last position of `c` in `s`, as `str.rfind` finds it. */
  function LastIndexOf(s: string, c: char): (r: int)
    ensures -1 <= r < |s|
    ensures r >= 0 ==> s[r] == c
    ensures forall i :: r < i < |s| ==> s[i] != c
  {
    if |s| == 0 then -1
    else if s[|s| - 1] == c then |s| - 1
    else LastIndexOf(s[..|s| - 1], c)
  }

  /** Where the suffix starts, if the name has one: pathlib ignores a leading
      dot (hidden files) and a trailing dot. */
  function SuffixStart(name: string): (r: int)
    ensures r == -1 || 0 < r < |name| - 1
  {
    var i := LastIndexOf(name, '.');
    if 0 < i < |name| - 1 then i else -1
  }

  /** `Path.suffix`. */
  function Suffix(name: string): (r: string)
    ensures r == "" || (|r| >= 2 && r[0] == '.' && forall i :: 0 < i < |r| ==> r[i] != '.')
  {
    var i := SuffixStart(name);
    if i < 0 then "" else name[i..]
  }

  /** `Path.stem`. */
  function Stem(name: string): (r: string)
    ensures |r| <= |name|
  {
    var i := SuffixStart(name);
    if i < 0 then name else name[..i]
  }

  /** Stem and suffix split the name: nothing is lost or duplicated, and a name
      with a suffix keeps a non-empty stem. */
  lemma StemSuffixSplit(name: string)
    ensures Stem(name) + Suffix(name) == name
    ensures Suffix(name) != "" ==> |Stem(name)| > 0
  {
    var i := SuffixStart(name);
    if i >= 0 {
      assert name[..i] + name[i..] == name;
    }
  }

  /** A name with a dot strictly inside it, not at its end, has the text after
      the last dot as suffix. */
  lemma SuffixOfExtension(base: string, ext: string)
    requires |base| > 0 && |ext| > 0 && '.' !in ext
    ensures Suffix(base + "." + ext) == "." + ext
    ensures Stem(base + "." + ext) == base
  {
    var name := base + "." + ext;
    var i := LastIndexOf(name, '.');
    assert name[|base|] == '.';
    assert forall j :: |base| < j < |name| ==> name[j] == ext[j - |base| - 1];
    assert name[i..] == "." + ext;
    assert name[..i] == base;
  }
}
