# zola_translate, modelled in Dafny

`zola_translate.py` seeds per-language content for a Zola site. It walks a
content directory depth-first, descending into every directory, hidden ones
included. It picks every `.md` or `.json` regular file whose own name does
not start with a dot. It copies each one to a sibling whose name carries a
language tag in front of the extension (`about.md` becomes `about.en.md`), unless that
sibling already exists. The names in the model below follow the script's
structure:

- `Strings`: the script's own `split('.')` and `replace(ext, '')`, and the
  `rfind('.')` that `pathlib` uses for a suffix. The script's third `str`
  call, `startswith('.')`, is `PathFilter.IsHidden`.
- `PurePaths`: a path as a sequence of components, with `pathlib`'s `name`,
  `parent`, `suffix` and `stem`. The suffix rule is that of `pathlib` up to
  Python 3.13: when the name's last dot opens or ends it, there is no suffix.
- `NameTransformer`: `get_new_path`.
- `PathFilter`: `is_valid` and `VALID_FILE_EXTENSIONS`.
- `FileTree`: the disk below the processed root directory, as a finite tree:
  - entries are directories, regular files (with their bytes) and other
    things;
  - a directory keeps its entries in `iterdir` order;
  - `View` gives what `exists()` sees at a path;
  - `CreateFile` is the effect of `shutil.copy2` on the tree.
- `TreeWalker`: `traversal`, as a method that appends to a list object the
  caller owns (`PathList`). `Collect` is the list it appends, stated as a
  function.
- `CopyOrchestrator`: `process`, as a method of a `FileSystem` object whose
  `root` field is the disk. It walks the root once and then runs the copy loop
  over the listing. `Run` and `Translated` state the loop's result as
  functions.

`str.replace(extension, '')` is modelled as written: it removes every
occurrence, left to right (`RemoveAll`). It does not remove only the first
occurrence or only the trailing one. A name that reaches that line has at
most one dot, and the extension begins with that dot. So the extension text
occurs only at the end of the name, and `RemoveSuffixIsStem` proves that the
replacement always equals the `pathlib` stem. The fragility one might fear
from substring removal cannot arise behind the dot-count guard.

## Model

| member | source | states |
|---|---|---|
| `Strings.Split` | zola_translate.py:78 | `split` on one separator keeps empty fields: one more part than the name has separators, and no part contains the separator |
| `Strings.JoinSplit` | zola_translate.py:78 | joining the parts back with the separator gives the original name |
| `Strings.RFind` | zola_translate.py:83 | the index of the last dot holds a dot with none after it, and it is -1 exactly when there is no dot |
| `Strings.RemoveAll` | zola_translate.py:84 | `replace(pat, '')` only deletes characters: the result is no longer than the input and its characters come from it; a string in which `pat` does not occur, or an empty `pat`, leaves the input as it is |
| `Strings.RemoveAllKeepsPrefix` | zola_translate.py:84 | a prefix in which no occurrence of `pat` starts is copied unchanged, and the rest is processed on its own |
| `Strings.RemoveAllFirst` | zola_translate.py:84 | the first occurrence is deleted and everything before it is kept: with no occurrence starting in `a`, `a + pat + b` gives `a` followed by the result on `b` |
| `Strings.RemoveAllTrailing` | zola_translate.py:84 | when the pattern's first character does not occur in `stem`, removing every occurrence from `stem + pat` gives back `stem` |
| `PurePaths.ParentAndName` | zola_translate.py:82-85 | a non-empty path is its parent followed by its name, so `parent / new_name` is a sibling |
| `PurePaths.Suffix` | zola_translate.py:83 | a non-empty suffix is a proper tail of the name, at least two characters long, starting with a dot and containing no other dot |
| `PurePaths.SuffixEmpty` | zola_translate.py:83 | the suffix is empty exactly when the name has no dot, its only dot opens it, or it ends in a dot |
| `PurePaths.Stem` | zola_translate.py:83-84 | stem followed by suffix is the name, and the stem is non-empty whenever there is a suffix |
| `PurePaths.SuffixOfExtension` | zola_translate.py:83 | for any non-empty stem and any extension `ext`, `stem + ext` has suffix `ext` and stem `stem` |
| `PurePaths.SuffixIsExtension` | zola_translate.py:55 | the suffix equals an extension exactly when the name ends in it after at least one other character |
| `NameTransformer.GetNewPath` | zola_translate.py:72-85 | a name with two or more dots (three or more `split` parts) is returned unchanged; any other path gets a sibling named stem + "." + lang + suffix, which differs from the input |
| `NameTransformer.RemoveSuffixIsStem` | zola_translate.py:84 | on a name with at most one dot, `replace(suffix, '')` is the stem |
| `NameTransformer.DotlessNameTagged` | zola_translate.py:82-85 | a name without a dot gets the tag appended (`README` becomes `README.en`) |
| `NameTransformer.KeepsSuffix` | zola_translate.py:83-85 | the destination has the same suffix as the source |
| `NameTransformer.NoDoubleTagging` | zola_translate.py:78-85 | for a name with a dot, in any languages: the destination is already tagged, and tagging it again returns it unchanged (no `index.en.it.md`) |
| `NameTransformer.TaggedNameHasTwoDots` | zola_translate.py:78-80 | `stem.lang` followed by an extension, or by nothing when the stem has a dot, has at least two dots |
| `NameTransformer.DestinationsDistinct` | zola_translate.py:82-85 | two untagged paths with an extension that share a destination are the same path |
| `NameTransformer.TaggedNameDetermines` | zola_translate.py:84 | `stem.lang.ext` determines the stem and the extension |
| `PathFilter.IsValidByName` | zola_translate.py:45-55 | accepted exactly when the entry is a regular file, its name does not start with a dot, and it ends in `.md` or `.json` after at least one other character |
| `PathFilter.ValidHasSuffix` | zola_translate.py:53-55 | an accepted file has a dot and a non-empty suffix |
| `FileTree.LookupName` | zola_translate.py:63 | the entry found at a path carries the path's last component as its name |
| `FileTree.LookupParent` | zola_translate.py:99 | whatever exists at a path has a directory as its parent |
| `FileTree.CreateFileView` | zola_translate.py:99 | copying to a free path whose parent is a directory makes that path show the copied content and changes nothing else |
| `FileTree.CreateFileWellFormed` | zola_translate.py:99 | such a copy keeps every directory's entry names distinct |
| `TreeWalker.PathList.Append` | zola_translate.py:67 | `append` adds one path at the end and keeps the rest |
| `TreeWalker.Traversal` | zola_translate.py:59-69 | the list afterwards is the list before, unchanged and in order, followed by the walk's listing of the directory |
| `TreeWalker.CollectSound` | zola_translate.py:63-67 | every listed path lies below the walked directory and names an entry `is_valid` accepts, so never a directory |
| `TreeWalker.CollectComplete` | zola_translate.py:63-67 | every accepted entry at any depth below the directory is listed |
| `TreeWalker.CollectDistinct` | zola_translate.py:63-67 | in a tree whose directories have distinct entry names, no path is listed twice |
| `TreeWalker.ListedExactlyOnce` | zola_translate.py:63-67 | each accepted file is listed, and the listing has no repeats |
| `CopyOrchestrator.FileSystem.Copy` | zola_translate.py:99 | `copy2` on the disk: the file is created at the destination with the source's content, and the tree stays well formed |
| `CopyOrchestrator.FileSystem.ProcessFile` | zola_translate.py:96-99 | one turn of the loop: the destination is computed, the turn skips when it exists and copies otherwise, and the disk becomes the loop's next state |
| `CopyOrchestrator.FileSystem.Process` | zola_translate.py:88-99 | after walking once and looping over the listing, the disk is `Translated` of the disk before |
| `CopyOrchestrator.RunShowsExpected` | zola_translate.py:95-99 | after the loop over any list of regular files, every path shows what it showed before if it existed; otherwise it shows the content of the first listed file whose destination it is |
| `CopyOrchestrator.StepSkips` | zola_translate.py:97-98 | a turn whose destination exists changes nothing |
| `CopyOrchestrator.StepCopies` | zola_translate.py:99 | a turn whose destination is missing keeps the loop's invariant |
| `CopyOrchestrator.CollectAllFiles` | zola_translate.py:93 | the listing `process` loops over names regular files only |
| `CopyOrchestrator.ExistingPathsUntouched` | zola_translate.py:97-99 | a path that existed before `process` shows the same thing afterwards, sources and existing translations included |
| `CopyOrchestrator.MissingDestinationCreated` | zola_translate.py:96-99 | a listed file whose destination was missing has that destination afterwards, holding the file's content |
| `CopyOrchestrator.OnlyDestinationsCreated` | zola_translate.py:95-99 | every new path is the destination of a listed file and holds that file's content |
| `CopyOrchestrator.NothingToCopy` | zola_translate.py:97-98 | a loop whose every destination exists leaves the disk as it is |
| `CopyOrchestrator.EveryDestinationExists` | zola_translate.py:95-99 | afterwards, every file a new walk would list has its destination on disk |
| `CopyOrchestrator.ProcessIdempotent` | zola_translate.py:88-99 | running `process` a second time, in the same language, changes nothing |

## Left out

- The command-line block at the end of the script is not modelled. That is
  the argument parsing, `Path.cwd()`, the confirmation prompt, `print` and
  the exit codes. It is input and output only.
- Paths are relative to the processed root directory, not absolute.
  `get_new_path` reads only the name and the parent, so the destinations
  agree component for component.
- `shutil.copy2` is modelled as copying the content only. Timestamps and
  permission bits are left out.
- The disk is case-sensitive: `FindChild` compares names exactly. On a
  case-insensitive disk, `exists()` would find `Post.en.md` for
  `post.en.md` and skip that copy, while the model copies.
- The disk is a finite acyclic tree. Symbolic links, permissions, other
  processes changing the disk, and I/O errors are left out. This includes an
  unreadable directory aborting the walk. `is_dir`/`is_file` following links
  (which can make the walk cycle) is left out too.
- `traversal`'s return value (`return the_path`) is not modelled, since no
  caller uses it.
- A `pathlib` that counts a trailing dot as a suffix (`a.` with suffix `.`),
  as newer Python versions do, is not modelled. Such names end in neither `.md`
  nor `.json`, so `is_valid` rejects them under either rule.
- `Strings.RemoveAll`: its own ensures bound the result and cover a string
  without `pat`. Which occurrences are deleted is stated by the lemmas
  `RemoveAllKeepsPrefix` and `RemoveAllFirst`, not by the function's ensures.
- `GetNewPath`: a `lang` containing `/` makes `parent / new_name` a path of
  several components. The model keeps the new name as one component.
- `CopyOrchestrator.Step`: a listed path that is not a regular file when its
  turn comes is skipped in the model. The walk never lists such a path and
  the loop never removes a file, so this branch is never taken.
- `CopyOrchestrator.FileSystem.Copy`: its postcondition gives the new tree;
  what that tree shows at each path is stated by `FileTree.CreateFileView`.
