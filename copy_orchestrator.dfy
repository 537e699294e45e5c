/** `process`: list the files once, then give each one a translated sibling
    unless that sibling already exists. */
module CopyOrchestrator {
  import opened PurePaths
  import opened FileTree
  import opened PathFilter
  import opened NameTransformer
  import opened TreeWalker

  /** One turn of the copy loop on the tree `t`: an existing destination is
      skipped, otherwise the source's content is copied there. (A source that
      is not a regular file is skipped too; the walk never lists one.) */
  function Step(t: Entry, fp: Path, lang: string): Entry {
    var newPath := GetNewPath(fp, lang);
    if View(t, newPath).Some? then t
    else
      match Lookup(t, fp)
      case Some(File(_, content)) => CreateFile(t, newPath, content)
      case _ => t
  }

  /** The copy loop over `xs`, in order. */
  function Run(t: Entry, xs: seq<Path>, lang: string): Entry
    decreases |xs|
  {
    if xs == [] then t
    else Step(Run(t, xs[..|xs| - 1], lang), xs[|xs| - 1], lang)
  }

  /** The tree after `process` on the root directory `t`. */
  function Translated(t: Entry, lang: string): Entry {
    Run(t, Collect([], t), lang)
  }

  /** What the loop over `xs` has created at `q`, starting from `t0`: the
      content of the first listed file whose destination is `q`. */
  function Created(t0: Entry, xs: seq<Path>, lang: string, q: Path): Option<Kind>
    decreases |xs|
  {
    if xs == [] then None
    else
      var prior := Created(t0, xs[..|xs| - 1], lang, q);
      if prior.Some? then prior
      else if GetNewPath(xs[|xs| - 1], lang) == q then View(t0, xs[|xs| - 1])
      else None
  }

  /** What the loop over `xs` shows at `q`: what was there, or else what it
      created there. */
  function Expected(t0: Entry, xs: seq<Path>, lang: string, q: Path): Option<Kind> {
    if View(t0, q).Some? then View(t0, q) else Created(t0, xs, lang, q)
  }

  /** Every path in `xs` names a regular file of `t0`. */
  predicate AllFiles(t0: Entry, xs: seq<Path>) {
    forall fp :: fp in xs ==> Lookup(t0, fp).Some? && Lookup(t0, fp).value.File?
  }

  /** A root directory the copy loop can run on. */
  predicate IsRoot(t: Entry) {
    t.Dir? && WellFormed(t)
  }

  /** The loop's invariant, for any list of regular files: the tree stays a
      well-formed directory and shows exactly `Expected`. */
  lemma {:induction false} RunShowsExpected(t0: Entry, xs: seq<Path>, lang: string)
    requires IsRoot(t0) && AllFiles(t0, xs)
    ensures IsRoot(Run(t0, xs, lang))
    ensures forall q :: View(Run(t0, xs, lang), q) == Expected(t0, xs, lang, q)
    decreases |xs|
  {
    if xs != [] {
      var ys, fp := xs[..|xs| - 1], xs[|xs| - 1];
      assert AllFiles(t0, ys) by {
        forall x | x in ys ensures x in xs { }
      }
      RunShowsExpected(t0, ys, lang);
      assert xs == ys + [fp];
      if View(Run(t0, ys, lang), GetNewPath(fp, lang)) == None {
        StepCopies(t0, ys, fp, lang);
      } else {
        StepSkips(t0, ys, fp, lang);
      }
    }
  }

  /** The skipping case of `RunShowsExpected`: the destination is already
      there, so nothing changes. */
  lemma StepSkips(t0: Entry, ys: seq<Path>, fp: Path, lang: string)
    requires forall q :: View(Run(t0, ys, lang), q) == Expected(t0, ys, lang, q)
    requires View(Run(t0, ys, lang), GetNewPath(fp, lang)).Some?
    ensures Step(Run(t0, ys, lang), fp, lang) == Run(t0, ys, lang)
    ensures forall q :: View(Run(t0, ys, lang), q) == Expected(t0, ys + [fp], lang, q)
  {
    var xs := ys + [fp];
    assert xs[..|xs| - 1] == ys;
  }

  /** What a copying turn needs: with the destination missing, the source is
      still the regular file it was, and the destination is a free path in the
      source's directory. */
  lemma CopyEnabled(t0: Entry, ys: seq<Path>, fp: Path, lang: string)
    requires IsRoot(t0) && Lookup(t0, fp).Some? && Lookup(t0, fp).value.File?
    requires IsRoot(Run(t0, ys, lang))
    requires forall q :: View(Run(t0, ys, lang), q) == Expected(t0, ys, lang, q)
    requires View(Run(t0, ys, lang), GetNewPath(fp, lang)) == None
    ensures Lookup(Run(t0, ys, lang), fp).Some? && Lookup(Run(t0, ys, lang), fp).value.File?
    ensures Lookup(Run(t0, ys, lang), fp).value.content == Lookup(t0, fp).value.content
    ensures GetNewPath(fp, lang) != []
    ensures View(Run(t0, ys, lang), Parent(GetNewPath(fp, lang))) == Some(DirKind)
  {
    var t := Run(t0, ys, lang);
    var content := Lookup(t0, fp).value.content;
    assert View(t, fp) == Some(FileKind(content));
    assert !AlreadyTagged(Name(fp));
    LookupParent(t, fp);
  }

  /** The copying case of `RunShowsExpected`. */
  lemma StepCopies(t0: Entry, ys: seq<Path>, fp: Path, lang: string)
    requires IsRoot(t0) && Lookup(t0, fp).Some? && Lookup(t0, fp).value.File?
    requires IsRoot(Run(t0, ys, lang))
    requires forall q :: View(Run(t0, ys, lang), q) == Expected(t0, ys, lang, q)
    requires View(Run(t0, ys, lang), GetNewPath(fp, lang)) == None
    ensures IsRoot(Step(Run(t0, ys, lang), fp, lang))
    ensures forall q :: View(Step(Run(t0, ys, lang), fp, lang), q) == Expected(t0, ys + [fp], lang, q)
  {
    var t := Run(t0, ys, lang);
    var newPath := GetNewPath(fp, lang);
    var content := Lookup(t0, fp).value.content;
    CopyEnabled(t0, ys, fp, lang);
    assert Step(t, fp, lang) == CreateFile(t, newPath, content);
    CreateFileWellFormed(t, newPath, content);
    forall q ensures View(Step(t, fp, lang), q) == Expected(t0, ys + [fp], lang, q) {
      CopyShowsExpected(t0, ys, fp, lang, t, q);
    }
  }

  /** `StepCopies` at one path `q`, for the tree `t` the loop has reached. */
  lemma CopyShowsExpected(t0: Entry, ys: seq<Path>, fp: Path, lang: string, t: Entry, q: Path)
    requires Lookup(t0, fp).Some? && Lookup(t0, fp).value.File?
    requires GetNewPath(fp, lang) != []
    requires View(t, Parent(GetNewPath(fp, lang))) == Some(DirKind)
    requires View(t, GetNewPath(fp, lang)) == None
    requires View(t, GetNewPath(fp, lang)) == Expected(t0, ys, lang, GetNewPath(fp, lang))
    requires View(t, q) == Expected(t0, ys, lang, q)
    ensures View(CreateFile(t, GetNewPath(fp, lang), Lookup(t0, fp).value.content), q) ==
              Expected(t0, ys + [fp], lang, q)
  {
    var xs := ys + [fp];
    assert xs[..|xs| - 1] == ys && xs[|xs| - 1] == fp;
    CreateFileView(t, GetNewPath(fp, lang), Lookup(t0, fp).value.content, q);
  }

  /** One turn of `Process`'s loop, at index `k`: it skips when the
      destination exists and otherwise is a copy the file system allows. */
  lemma Turn(t0: Entry, xs: seq<Path>, k: nat, lang: string)
    requires IsRoot(t0) && xs == Collect([], t0) && k < |xs|
    ensures IsRoot(Run(t0, xs[..k], lang))
    ensures View(Run(t0, xs[..k], lang), GetNewPath(xs[k], lang)).Some? ==>
              Run(t0, xs[..k + 1], lang) == Run(t0, xs[..k], lang)
    ensures View(Run(t0, xs[..k], lang), GetNewPath(xs[k], lang)) == None ==>
              && Lookup(Run(t0, xs[..k], lang), xs[k]).Some?
              && Lookup(Run(t0, xs[..k], lang), xs[k]).value.File?
              && GetNewPath(xs[k], lang) != []
              && View(Run(t0, xs[..k], lang), Parent(GetNewPath(xs[k], lang))) == Some(DirKind)
              && Run(t0, xs[..k + 1], lang) ==
                 CreateFile(Run(t0, xs[..k], lang), GetNewPath(xs[k], lang),
                            Lookup(Run(t0, xs[..k], lang), xs[k]).value.content)
  {
    var ys, fp := xs[..k], xs[k];
    var zs := xs[..k + 1];
    assert zs[..|zs| - 1] == ys && zs[|zs| - 1] == fp;
    var t := Run(t0, ys, lang);
    assert Run(t0, zs, lang) == Step(t, fp, lang);
    CollectAllFiles(t0);
    assert AllFiles(t0, ys) by {
      forall x | x in ys ensures x in xs { }
    }
    assert fp in xs;
    RunShowsExpected(t0, ys, lang);
    if View(t, GetNewPath(fp, lang)) == None {
      CopyEnabled(t0, ys, fp, lang);
      var content := Lookup(t, fp).value.content;
      assert Step(t, fp, lang) == CreateFile(t, GetNewPath(fp, lang), content);
    }
  }

  /** Once the loop has gone through the whole listing of `t0`, the tree is
      `Translated(t0)`. */
  lemma LoopDone(t0: Entry, xs: seq<Path>, k: nat, t: Entry, lang: string)
    requires xs == Collect([], t0) && k == |xs| && t == Run(t0, xs[..k], lang)
    ensures t == Translated(t0, lang)
  {
    assert xs[..k] == xs;
  }

  /** Anything the loop created at `q` is the content of a listed file whose
      destination is `q`. */
  lemma {:induction false} CreatedHasSource(t0: Entry, xs: seq<Path>, lang: string, q: Path)
    requires Created(t0, xs, lang, q).Some?
    ensures exists fp :: fp in xs && GetNewPath(fp, lang) == q &&
                         Created(t0, xs, lang, q) == View(t0, fp)
    decreases |xs|
  {
    var ys := xs[..|xs| - 1];
    CreatedLast(t0, xs, lang, q);
    if Created(t0, ys, lang, q).Some? {
      CreatedHasSource(t0, ys, lang, q);
      var fp :| fp in ys && GetNewPath(fp, lang) == q && Created(t0, ys, lang, q) == View(t0, fp);
      PrefixIn(xs, fp);
    } else {
      assert xs[|xs| - 1] in xs;
    }
  }

  /** A listed file that exists has had something created at its destination
      `q`. */
  lemma {:induction false} SourceCreates(t0: Entry, xs: seq<Path>, lang: string, fp: Path, q: Path)
    requires fp in xs && View(t0, fp).Some? && GetNewPath(fp, lang) == q
    ensures Created(t0, xs, lang, q).Some?
    decreases |xs|
  {
    var ys := xs[..|xs| - 1];
    if fp != xs[|xs| - 1] {
      InPrefix(xs, fp);
      SourceCreates(t0, ys, lang, fp, q);
    }
    CreatedLast(t0, xs, lang, q);
  }

  /** `Created` for a non-empty list, in terms of its last element. */
  lemma CreatedLast(t0: Entry, xs: seq<Path>, lang: string, q: Path)
    requires xs != []
    ensures Created(t0, xs[..|xs| - 1], lang, q).Some? ==>
              Created(t0, xs, lang, q) == Created(t0, xs[..|xs| - 1], lang, q)
    ensures Created(t0, xs[..|xs| - 1], lang, q) == None ==>
              Created(t0, xs, lang, q) ==
                if GetNewPath(xs[|xs| - 1], lang) == q then View(t0, xs[|xs| - 1]) else None
  {
  }

  /** An element other than the last one lies in the prefix before it. */
  lemma InPrefix(xs: seq<Path>, x: Path)
    requires x in xs && x != xs[|xs| - 1]
    ensures x in xs[..|xs| - 1]
  {
    var i :| 0 <= i < |xs| && xs[i] == x;
    assert xs[..|xs| - 1][i] == x;
  }

  /** An element of a prefix is an element of the whole list. */
  lemma PrefixIn(xs: seq<Path>, x: Path)
    requires xs != [] && x in xs[..|xs| - 1]
    ensures x in xs
  {
    var i :| 0 <= i < |xs| - 1 && xs[..|xs| - 1][i] == x;
    assert xs[i] == x;
  }

  /** The walk lists only regular files. */
  lemma CollectAllFiles(t: Entry)
    requires IsRoot(t)
    ensures AllFiles(t, Collect([], t))
  {
    forall fp | fp in Collect([], t)
      ensures Lookup(t, fp).Some? && Lookup(t, fp).value.File?
    {
      CollectSound([], t, fp);
      assert fp[0..] == fp;
    }
  }

  /** `process` leaves every existing path as it was, sources and existing
      translations included. */
  lemma ExistingPathsUntouched(t0: Entry, lang: string, q: Path)
    requires IsRoot(t0)
    requires View(t0, q).Some?
    ensures View(Translated(t0, lang), q) == View(t0, q)
  {
    CollectAllFiles(t0);
    RunShowsExpected(t0, Collect([], t0), lang);
  }

  /** Every listed file whose destination was missing gets that destination,
      holding the file's own content. */
  lemma MissingDestinationCreated(t0: Entry, lang: string, fp: Path)
    requires IsRoot(t0)
    requires fp in Collect([], t0)
    requires View(t0, GetNewPath(fp, lang)) == None
    ensures View(Translated(t0, lang), GetNewPath(fp, lang)) == View(t0, fp)
    ensures View(t0, fp).Some? && View(t0, fp).value.FileKind?
  {
    var xs := Collect([], t0);
    var newPath := GetNewPath(fp, lang);
    CollectAllFiles(t0);
    RunShowsExpected(t0, xs, lang);
    ListedDestination(t0, fp, lang);
    SourceCreates(t0, xs, lang, fp, newPath);
    CreatedHasSource(t0, xs, lang, newPath);
    var other :| other in xs && GetNewPath(other, lang) == newPath &&
                 Created(t0, xs, lang, newPath) == View(t0, other);
    ListedDestination(t0, other, lang);
    DestinationsDistinct(fp, other, lang);
  }

  /** A listed file whose destination is missing has an untranslated name
      with a suffix. */
  lemma ListedDestination(t0: Entry, fp: Path, lang: string)
    requires IsRoot(t0)
    requires fp in Collect([], t0)
    requires View(t0, GetNewPath(fp, lang)) == None
    ensures !AlreadyTagged(Name(fp)) && Suffix(Name(fp)) != []
    ensures View(t0, fp).Some? && View(t0, fp).value.FileKind?
  {
    CollectSound([], t0, fp);
    assert fp[0..] == fp;
    var e := Lookup(t0, fp).value;
    LookupName(t0, fp);
    ValidHasSuffix(e);
  }

  /** The only paths `process` adds are destinations of listed files. */
  lemma OnlyDestinationsCreated(t0: Entry, lang: string, q: Path)
    requires IsRoot(t0)
    requires View(t0, q) == None
    requires View(Translated(t0, lang), q).Some?
    ensures exists fp :: fp in Collect([], t0) && GetNewPath(fp, lang) == q &&
                         View(Translated(t0, lang), q) == View(t0, fp)
  {
    var xs := Collect([], t0);
    CollectAllFiles(t0);
    RunShowsExpected(t0, xs, lang);
    CreatedHasSource(t0, xs, lang, q);
  }

  /** A loop whose every destination already exists copies nothing. */
  lemma {:induction false} NothingToCopy(t: Entry, xs: seq<Path>, lang: string)
    requires forall fp :: fp in xs ==> View(t, GetNewPath(fp, lang)).Some?
    ensures Run(t, xs, lang) == t
    decreases |xs|
  {
    if xs != [] {
      var ys := xs[..|xs| - 1];
      assert forall fp :: fp in ys ==> fp in xs;
      NothingToCopy(t, ys, lang);
      assert xs[|xs| - 1] in xs;
    }
  }

  /** After `process`, every file the walk lists has its destination on
      disk: an original file because it was copied or already translated,
      and a new copy because it is its own destination. */
  lemma EveryDestinationExists(t0: Entry, lang: string, fp: Path)
    requires IsRoot(t0)
    requires fp in Collect([], Translated(t0, lang))
    ensures View(Translated(t0, lang), GetNewPath(fp, lang)).Some?
  {
    var t1 := Translated(t0, lang);
    CollectAllFiles(t0);
    RunShowsExpected(t0, Collect([], t0), lang);
    CollectSound([], t1, fp);
    assert fp[0..] == fp;
    LookupName(t1, fp);
    if View(t0, fp).Some? {
      OriginalHasDestination(t0, lang, fp);
    } else {
      CopyIsOwnDestination(t0, lang, fp);
    }
  }

  /** `EveryDestinationExists` for a file that was there before `process`. */
  lemma OriginalHasDestination(t0: Entry, lang: string, fp: Path)
    requires IsRoot(t0) && IsRoot(Translated(t0, lang))
    requires Lookup(Translated(t0, lang), fp).Some?
    requires IsValid(Lookup(Translated(t0, lang), fp).value)
    requires fp != [] && Lookup(Translated(t0, lang), fp).value.name == Name(fp)
    requires View(t0, fp).Some?
    ensures View(Translated(t0, lang), GetNewPath(fp, lang)).Some?
  {
    var e0 := Lookup(t0, fp).value;
    ExistingPathsUntouched(t0, lang, fp);
    LookupName(t0, fp);
    assert IsValid(e0);
    CollectComplete([], t0, fp);
    assert [] + fp == fp;
    var newPath := GetNewPath(fp, lang);
    if View(t0, newPath) == None {
      MissingDestinationCreated(t0, lang, fp);
    } else {
      ExistingPathsUntouched(t0, lang, newPath);
    }
  }

  /** `EveryDestinationExists` for a copy made by `process`: its name is
      already tagged, so it is its own destination. */
  lemma CopyIsOwnDestination(t0: Entry, lang: string, fp: Path)
    requires IsRoot(t0)
    requires View(t0, fp) == None
    requires View(Translated(t0, lang), fp).Some?
    ensures View(Translated(t0, lang), GetNewPath(fp, lang)).Some?
  {
    var xs := Collect([], t0);
    OnlyDestinationsCreated(t0, lang, fp);
    var src :| src in xs && GetNewPath(src, lang) == fp;
    CollectSound([], t0, src);
    assert src[0..] == src;
    LookupName(t0, src);
    ValidHasSuffix(Lookup(t0, src).value);
    NoDoubleTagging(src, lang, lang);
  }

  /** `process` is idempotent: a second run on its result copies nothing. */
  lemma ProcessIdempotent(t0: Entry, lang: string)
    requires IsRoot(t0)
    ensures Translated(Translated(t0, lang), lang) == Translated(t0, lang)
  {
    var t1 := Translated(t0, lang);
    forall fp | fp in Collect([], t1) ensures View(t1, GetNewPath(fp, lang)).Some? {
      EveryDestinationExists(t0, lang, fp);
    }
    NothingToCopy(t1, Collect([], t1), lang);
  }

  /** The disk below the root directory, changed in place by `process`. */
  class FileSystem {
    var root: Entry

    ghost predicate Valid()
      reads this
    {
      IsRoot(root)
    }

    constructor (root: Entry)
      requires IsRoot(root)
      ensures Valid() && this.root == root
    {
      this.root := root;
    }

    /** `shutil.copy2(src, dst)` for a regular file `src` and a free `dst`
        whose parent is a directory: the file is created in place, and by
        `CreateFileView` `dst` then holds `src`'s content and nothing else
        changes. */
    method Copy(src: Path, dst: Path)
      requires Valid()
      requires Lookup(root, src).Some? && Lookup(root, src).value.File?
      requires dst != [] && View(root, Parent(dst)) == Some(DirKind) && View(root, dst) == None
      modifies this
      ensures Valid()
      ensures root == CreateFile(old(root), dst, Lookup(old(root), src).value.content)
    {
      var content := Lookup(root, src).value.content;
      CreateFileWellFormed(root, dst, content);
      root := CreateFile(root, dst, content);
    }

    /** `process(root_dir, lang)`: walk the root once, then handle each
        listed file in turn. */
    method Process(lang: string)
      requires Valid()
      modifies this
      ensures Valid()
      ensures root == Translated(old(root), lang)
    {
      ghost var t0 := root;
      var toProcess := new PathList();
      Traversal([], root, toProcess);
      var files := toProcess.items;
      assert files == Collect([], t0);
      for k := 0 to |files|
        invariant Valid() && root == Run(t0, files[..k], lang)
      {
        ProcessFile(t0, files, k, files[k], lang);
      }
      LoopDone(t0, files, |files|, root, lang);
    }

    /** The body of `process`'s loop for the listed file `fp`, the `k`-th:
        skip it when its destination exists, copy it there otherwise. */
    method ProcessFile(ghost t0: Entry, ghost xs: seq<Path>, ghost k: nat, fp: Path, lang: string)
      requires IsRoot(t0) && xs == Collect([], t0) && k < |xs| && fp == xs[k]
      requires Valid() && root == Run(t0, xs[..k], lang)
      modifies this
      ensures Valid() && root == Run(t0, xs[..k + 1], lang)
    {
      var newPath := GetNewPath(fp, lang);
      Turn(t0, xs, k, lang);
      if !View(root, newPath).Some? {
        Copy(fp, newPath);
      }
    }
  }
}
