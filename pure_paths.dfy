/** The part of `pathlib.PurePath` the translator uses. A path is the sequence
    of its components; the name is the last one and the parent is all the
    others. */
module PurePaths {
  import opened Strings

  type Path = seq<string>

  /** `PurePath.name`: the last component, or "" for the empty path. */
  function Name(p: Path): string {
    if p == [] then "" else p[|p| - 1]
  }

  /** `PurePath.parent`: every component but the last. */
  function Parent(p: Path): Path {
    if p == [] then [] else p[..|p| - 1]
  }

  /** A non-empty path is its parent joined with its name. */
  lemma ParentAndName(p: Path)
    requires p != []
    ensures p == Parent(p) + [Name(p)]
  {
  }

  /** `PurePath.suffix`: from the last dot to the end of the name, provided
      that dot is neither the first nor the last character; otherwise "". */
  function Suffix(name: string): (r: string)
    ensures r != [] ==> 2 <= |r| < |name| && r == name[|name| - |r|..]
    ensures r != [] ==> r[0] == '.' && '.' !in r[1..]
  {
    var i := RFind(name, '.');
    if 0 < i < |name| - 1 then
      assert name[i + 1..] == name[i..][1..];
      name[i..]
    else
      ""
  }

  /** A name has no suffix exactly when it has no dot, its only dot opens it,
      or it ends in a dot. */
  lemma SuffixEmpty(name: string)
    ensures Suffix(name) == [] <==>
              || '.' !in name
              || (name[0] == '.' && '.' !in name[1..])
              || name[|name| - 1] == '.'
  {
    var i := RFind(name, '.');
    if 0 < i < |name| - 1 {
      assert '.' in name[1..] by { assert name[1..][i - 1] == '.'; }
    } else if i == 0 {
      assert name[1..] == name[i + 1..];
    }
  }

  /** `PurePath.stem`: the name without its suffix. */
  function Stem(name: string): (r: string)
    ensures r + Suffix(name) == name
    ensures Suffix(name) != [] ==> r != []
  {
    var suffix := Suffix(name);
    SplitAt(name, |name| - |suffix|);
    name[..|name| - |suffix|]
  }

  /** A name is what comes before position `k` followed by what comes after. */
  lemma SplitAt(name: string, k: int)
    requires 0 <= k <= |name|
    ensures name[..k] + name[k..] == name
  {
  }

  /** The name ends in `ext` and has something in front of it. */
  predicate HasExtension(name: string, ext: string) {
    |name| > |ext| && name[|name| - |ext|..] == ext
  }

  /** A dot followed by at least one character and no further dot. */
  predicate IsExtension(ext: string) {
    |ext| >= 2 && ext[0] == '.' && '.' !in ext[1..]
  }

  /** Whatever comes before an extension, `suffix` recovers exactly that
      extension. */
  lemma SuffixOfExtension(stem: string, ext: string)
    requires stem != []
    requires IsExtension(ext)
    ensures Suffix(stem + ext) == ext
    ensures Stem(stem + ext) == stem
  {
    var name := stem + ext;
    var i := RFind(name, '.');
    assert name[|stem|] == '.';
    assert i == |stem|;
    assert name[i..] == ext;
  }

  /** `suffix` is one of the extensions `ext` exactly when the name ends in
      `ext` behind at least one other character. */
  lemma SuffixIsExtension(name: string, ext: string)
    requires IsExtension(ext)
    ensures Suffix(name) == ext <==> HasExtension(name, ext)
  {
    if HasExtension(name, ext) {
      var stem := name[..|name| - |ext|];
      assert name == stem + ext;
      SuffixOfExtension(stem, ext);
    }
  }
}
