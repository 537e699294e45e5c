/** `is_valid`: which entries the translator copies. */
module PathFilter {
  import opened PurePaths
  import opened FileTree

  /** The extensions of the files that get a translated copy. */
  const ValidFileExtensions: seq<string> := [".md", ".json"]

  /** `name.startswith('.')`: the hidden-file convention. */
  predicate IsHidden(name: string) {
    |name| > 0 && name[0] == '.'
  }

  /** A regular file, not hidden, whose suffix is one of the valid extensions. */
  predicate IsValid(e: Entry) {
    if !e.File? then false
    else if IsHidden(e.name) then false
    else Suffix(e.name) in ValidFileExtensions
  }

  /** The filter in terms of the name alone: a regular file is accepted
      exactly when its name does not start with a dot and ends in ".md" or
      ".json" behind at least one other character. */
  lemma IsValidByName(e: Entry)
    ensures IsValid(e) <==>
              && e.File?
              && |e.name| > 0 && e.name[0] != '.'
              && (HasExtension(e.name, ".md") || HasExtension(e.name, ".json"))
  {
    SuffixIsExtension(e.name, ".md");
    SuffixIsExtension(e.name, ".json");
  }

  /** An accepted entry's name has a dot and a non-empty suffix. */
  lemma ValidHasSuffix(e: Entry)
    requires IsValid(e)
    ensures Suffix(e.name) != [] && '.' in e.name
  {
    var ext := Suffix(e.name);
    assert ext[0] == '.';
    assert e.name[|e.name| - |ext|] == ext[0];
  }
}
