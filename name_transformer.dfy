/** `get_new_path`: the destination of a content file for one language, a
    sibling whose name carries the language tag in front of the extension. */
module NameTransformer {
  import opened Strings
  import opened PurePaths

  /** A name with two or more dots is taken to be a translation already
      (`index.en.md`) and is never tagged again. */
  predicate AlreadyTagged(name: string) {
    Count(name, '.') >= 2
  }

  /** The destination path for `thePath` in language `lang`. The name is split
      on '.'; more than two parts leaves the path as it is. Otherwise every
      occurrence of the suffix is removed from the name and ".lang" plus the
      suffix is appended, in the same parent directory. */
  function GetNewPath(thePath: Path, lang: string): (r: Path)
    ensures AlreadyTagged(Name(thePath)) ==> r == thePath
    ensures !AlreadyTagged(Name(thePath)) ==>
              && r != []
              && Parent(r) == Parent(thePath)
              && Name(r) == Stem(Name(thePath)) + "." + lang + Suffix(Name(thePath))
              && r != thePath
  {
    var filename := Name(thePath);
    var parts := Split(filename, '.');
    if |parts| > 2 then thePath
    else
      var extension := Suffix(filename);
      RemoveSuffixIsStem(filename);
      var r := Parent(thePath) + [RemoveAll(filename, extension) + "." + lang + extension];
      assert Parent(r) == Parent(thePath);
      assert |Name(r)| > |filename|;
      r
  }

  /** For a name with at most one dot, `name.replace(suffix, '')` is the stem:
      the suffix occurs only at the end. */
  lemma RemoveSuffixIsStem(name: string)
    requires !AlreadyTagged(name)
    ensures RemoveAll(name, Suffix(name)) == Stem(name)
  {
    var ext := Suffix(name);
    var stem := Stem(name);
    if ext != [] {
      assert multiset(name) == multiset(stem) + multiset(ext);
      assert ext[0] in multiset(ext);
      assert '.' !in stem by {
        assert Count(stem, '.') == 0;
      }
      RemoveAllTrailing(stem, ext);
    }
  }

  /** A name without a dot gets the tag appended: `README` becomes
      `README.en`. */
  lemma DotlessNameTagged(thePath: Path, lang: string)
    requires '.' !in Name(thePath)
    ensures Name(GetNewPath(thePath, lang)) == Name(thePath) + "." + lang
  {
  }

  /** The destination keeps the source's extension. */
  lemma KeepsSuffix(thePath: Path, lang: string)
    requires Suffix(Name(thePath)) != []
    ensures Suffix(Name(GetNewPath(thePath, lang))) == Suffix(Name(thePath))
  {
    var name := Name(thePath);
    if !AlreadyTagged(name) {
      SuffixOfExtension(Stem(name) + "." + lang, Suffix(name));
      assert Name(GetNewPath(thePath, lang)) == (Stem(name) + "." + lang) + Suffix(name);
    }
  }

  /** A destination is already tagged, so transforming it again, in any
      language, yields it unchanged: names such as `index.en.it.md` never
      arise from a name that has a dot. */
  lemma NoDoubleTagging(thePath: Path, lang: string, lang2: string)
    requires '.' in Name(thePath)
    ensures AlreadyTagged(Name(GetNewPath(thePath, lang)))
    ensures GetNewPath(GetNewPath(thePath, lang), lang2) == GetNewPath(thePath, lang)
  {
    var name := Name(thePath);
    if !AlreadyTagged(name) {
      var stem, ext := Stem(name), Suffix(name);
      if ext == [] {
        assert stem == name;
      }
      TaggedNameHasTwoDots(stem, lang, ext);
    }
  }

  /** `stem.lang` followed by an extension, or by nothing when the stem has a
      dot of its own, has at least two dots. */
  lemma TaggedNameHasTwoDots(stem: string, lang: string, ext: string)
    requires ext != [] ==> ext[0] == '.'
    requires ext == [] ==> '.' in stem
    ensures AlreadyTagged(stem + "." + lang + ext)
  {
    CountConcat(stem + "." + lang, ext, '.');
    CountConcat(stem + ".", lang, '.');
    CountConcat(stem, ".", '.');
    if ext != [] {
      assert ext[0] in multiset(ext);
    } else {
      assert '.' in multiset(stem);
    }
  }

  /** Two untranslated files with an extension never share a destination. */
  lemma DestinationsDistinct(p1: Path, p2: Path, lang: string)
    requires !AlreadyTagged(Name(p1)) && Suffix(Name(p1)) != []
    requires !AlreadyTagged(Name(p2)) && Suffix(Name(p2)) != []
    ensures GetNewPath(p1, lang) == GetNewPath(p2, lang) ==> p1 == p2
  {
    if GetNewPath(p1, lang) == GetNewPath(p2, lang) {
      var n1, n2 := Name(p1), Name(p2);
      var r := GetNewPath(p1, lang);
      assert Name(r) == Stem(n1) + "." + lang + Suffix(n1);
      assert Name(r) == Stem(n2) + "." + lang + Suffix(n2);
      TaggedNameDetermines(Stem(n1), Suffix(n1), Stem(n2), Suffix(n2), lang);
      assert n1 == Stem(n1) + Suffix(n1);
      assert n1 == n2;
      ParentAndName(p1);
      ParentAndName(p2);
    }
  }

  /** A tagged name `stem.lang.ext` determines its stem and its extension. */
  lemma TaggedNameDetermines(s1: string, e1: string, s2: string, e2: string, lang: string)
    requires s1 != [] && s2 != [] && IsExtension(e1) && IsExtension(e2)
    requires s1 + "." + lang + e1 == s2 + "." + lang + e2
    ensures s1 == s2 && e1 == e2
  {
    var pre1, pre2 := s1 + "." + lang, s2 + "." + lang;
    SuffixOfExtension(pre1, e1);
    SuffixOfExtension(pre2, e2);
    assert pre1 + e1 == pre2 + e2;
    assert pre1 == pre2 && e1 == e2;
    assert s1 == pre1[..|s1|] && s2 == pre2[..|s2|];
  }
}
