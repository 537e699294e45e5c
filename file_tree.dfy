/** The disk below the processed root directory, as a finite tree. A directory
    lists its entries in `iterdir` order; `Other` is anything that is neither a
    directory nor a regular file. */
module FileTree {
  import opened PurePaths

  datatype Option<T> = None | Some(value: T)

  type Bytes = seq<bv8>

  datatype Entry =
    | Dir(name: string, children: seq<Entry>)
    | File(name: string, content: Bytes)
    | Other(name: string)

  /** What a path shows once the tree structure is forgotten. */
  datatype Kind = DirKind | FileKind(content: Bytes) | OtherKind

  function KindOf(e: Entry): Kind {
    match e
    case Dir(_, _) => DirKind
    case File(_, content) => FileKind(content)
    case Other(_) => OtherKind
  }

  /** Index of the first entry called `name`, or -1. */
  function FindChild(children: seq<Entry>, name: string): (i: int)
    ensures -1 <= i < |children|
    ensures i >= 0 ==> children[i].name == name
    ensures forall j :: 0 <= j < |children| && (i < 0 || j < i) ==> children[j].name != name
    decreases |children|
  {
    if children == [] then -1
    else if children[0].name == name then 0
    else
      var i := FindChild(children[1..], name);
      if i < 0 then -1 else i + 1
  }

  /** A directory's entries have distinct names, at every level. */
  predicate WellFormed(e: Entry)
    decreases e
  {
    e.Dir? ==>
      && (forall i, j :: 0 <= i < j < |e.children| ==> e.children[i].name != e.children[j].name)
      && (forall i :: 0 <= i < |e.children| ==> WellFormed(e.children[i]))
  }

  /** The entry reached from `e` by following the components of `p`. */
  function Lookup(e: Entry, p: Path): Option<Entry>
    decreases |p|
  {
    if p == [] then Some(e)
    else if !e.Dir? then None
    else
      var i := FindChild(e.children, p[0]);
      if i < 0 then None else Lookup(e.children[i], p[1..])
  }

  /** What is at path `p`, if anything: `Path.exists()` is `View(t, p).Some?`. */
  function View(t: Entry, p: Path): Option<Kind> {
    match Lookup(t, p)
    case None => None
    case Some(e) => Some(KindOf(e))
  }

  /** A new regular file at `dst` holding `content`, appended to its parent
      directory's entries. The tree is left as it is when `dst` is empty or its
      parent is not a directory; `CreateFileView` states when neither happens. */
  function CreateFile(t: Entry, dst: Path, content: Bytes): (r: Entry)
    ensures r.Dir? == t.Dir? && r.name == t.name
    decreases |dst|
  {
    if dst == [] || !t.Dir? then t
    else if |dst| == 1 then Dir(t.name, t.children + [File(dst[0], content)])
    else
      var i := FindChild(t.children, dst[0]);
      if i < 0 then t
      else Dir(t.name, t.children[i := CreateFile(t.children[i], dst[1..], content)])
  }

  /** Renaming nothing: entries with the same names are searched alike. */
  lemma FindChildSameNames(cs: seq<Entry>, ds: seq<Entry>, name: string)
    requires |cs| == |ds|
    requires forall k :: 0 <= k < |cs| ==> cs[k].name == ds[k].name
    ensures FindChild(cs, name) == FindChild(ds, name)
  {
    var i, j := FindChild(cs, name), FindChild(ds, name);
    if i >= 0 && j >= 0 {
      assert !(i < j) && !(j < i);
    }
  }

  /** In a directory whose entries have distinct names, searching for an
      entry's name finds that entry. */
  lemma FindChildUnique(cs: seq<Entry>, i: int)
    requires 0 <= i < |cs|
    requires forall a, b :: 0 <= a < b < |cs| ==> cs[a].name != cs[b].name
    ensures FindChild(cs, cs[i].name) == i
  {
  }

  /** An entry found at a non-empty path carries the path's last component
      as its name. */
  lemma {:induction false} LookupName(e: Entry, p: Path)
    requires p != [] && Lookup(e, p).Some?
    ensures Lookup(e, p).value.name == Name(p)
    decreases |p|
  {
    var i := FindChild(e.children, p[0]);
    if |p| > 1 {
      LookupName(e.children[i], p[1..]);
    }
  }

  /** Whatever exists at a non-empty path has a directory as its parent. */
  lemma {:induction false} LookupParent(e: Entry, p: Path)
    requires p != [] && Lookup(e, p).Some?
    ensures View(e, Parent(p)) == Some(DirKind)
    decreases |p|
  {
    if |p| > 1 {
      var i := FindChild(e.children, p[0]);
      LookupParent(e.children[i], p[1..]);
      assert Parent(p) == [p[0]] + Parent(p[1..]);
      assert Parent(p)[1..] == Parent(p[1..]);
    }
  }

  /** Creating a file whose parent is a directory and whose path is free
      changes what the tree shows at that path and nowhere else. */
  lemma {:induction false} CreateFileView(t: Entry, dst: Path, content: Bytes, q: Path)
    requires dst != []
    requires View(t, Parent(dst)) == Some(DirKind)
    requires View(t, dst) == None
    ensures View(CreateFile(t, dst, content), q) ==
              if q == dst then Some(FileKind(content)) else View(t, q)
    decreases |dst|, 1
  {
    if q != [] {
      if |dst| == 1 {
        assert dst == [dst[0]] && Parent(dst) == [];
        assert Lookup(t, dst) == None;
        LookupChild(t, dst[0]);
        CreateFileViewInDir(t, dst[0], content, q);
      } else {
        CreateFileViewBelow(t, dst, content, q);
      }
    }
  }

  /** `CreateFileView` when the new file goes into a directory below `t`. */
  lemma {:induction false} CreateFileViewBelow(t: Entry, dst: Path, content: Bytes, q: Path)
    requires |dst| > 1 && q != []
    requires View(t, Parent(dst)) == Some(DirKind)
    requires View(t, dst) == None
    ensures View(CreateFile(t, dst, content), q) ==
              if q == dst then Some(FileKind(content)) else View(t, q)
    decreases |dst|, 0
  {
    var r := CreateFile(t, dst, content);
    var k := FindChild(t.children, dst[0]);
    assert Parent(dst)[1..] == Parent(dst[1..]);
    var child := CreateFile(t.children[k], dst[1..], content);
    assert r.children == t.children[k := child];
    FindChildSameNames(t.children, r.children, q[0]);
    var m := FindChild(t.children, q[0]);
    if m == k {
      CreateFileView(t.children[k], dst[1..], content, q[1..]);
      assert q == [q[0]] + q[1..] && dst == [dst[0]] + dst[1..];
      ViewStep(r, q);
      ViewStep(t, q);
    } else if m >= 0 {
      assert q[0] != dst[0];
      ViewStep(r, q);
      ViewStep(t, q);
    } else {
      assert q[0] != dst[0];
    }
  }

  /** Below a directory, a path is looked up in the entry its first
      component names. */
  lemma ViewStep(t: Entry, q: Path)
    requires t.Dir? && q != [] && FindChild(t.children, q[0]) >= 0
    ensures View(t, q) == View(t.children[FindChild(t.children, q[0])], q[1..])
  {
  }

  /** `CreateFileView` when the new file goes straight into `t`. */
  lemma CreateFileViewInDir(t: Entry, name: string, content: Bytes, q: Path)
    requires t.Dir? && FindChild(t.children, name) < 0
    requires q != []
    ensures View(CreateFile(t, [name], content), q) ==
              if q == [name] then Some(FileKind(content)) else View(t, q)
  {
    var f := File(name, content);
    var rs := t.children + [f];
    assert CreateFile(t, [name], content) == Dir(t.name, rs);
    var r := Dir(t.name, rs);
    FindChildAppend(t.children, f, q[0]);
    var i := FindChild(t.children, q[0]);
    if i >= 0 {
      assert rs[i] == t.children[i];
      assert Lookup(r, q) == Lookup(t, q);
      assert q != [name];
    } else if q[0] == name {
      assert rs[|t.children|] == f;
      assert Lookup(r, q) == Lookup(f, q[1..]);
      if q[1..] == [] {
        assert q == [name];
      }
    } else {
      assert Lookup(r, q) == None;
    }
  }

  /** Searching entries with one more appended at the end. */
  lemma {:induction false} FindChildAppend(cs: seq<Entry>, f: Entry, name: string)
    ensures FindChild(cs + [f], name) ==
              if FindChild(cs, name) >= 0 then FindChild(cs, name)
              else if f.name == name then |cs|
              else -1
    decreases |cs|
  {
    if cs != [] {
      assert (cs + [f])[1..] == cs[1..] + [f];
      FindChildAppend(cs[1..], f, name);
    }
  }

  /** A directory has an entry called `name` exactly when the search finds one. */
  lemma LookupChild(t: Entry, name: string)
    requires t.Dir?
    ensures Lookup(t, [name]).Some? <==> FindChild(t.children, name) >= 0
  {
    assert [name][1..] == [];
  }

  /** Creating a file at a free path keeps every directory's names distinct. */
  lemma {:induction false} CreateFileWellFormed(t: Entry, dst: Path, content: Bytes)
    requires WellFormed(t)
    requires dst != []
    requires View(t, Parent(dst)) == Some(DirKind)
    requires View(t, dst) == None
    ensures WellFormed(CreateFile(t, dst, content))
    decreases |dst|
  {
    var r := CreateFile(t, dst, content);
    if |dst| == 1 {
      assert dst == [dst[0]] && Parent(dst) == [];
      assert Lookup(t, dst) == None;
      assert t.Dir? && dst[1..] == [];
      LookupChild(t, dst[0]);
      assert r.children == t.children + [File(dst[0], content)];
      assert forall k :: 0 <= k < |t.children| ==> r.children[k] == t.children[k];
    } else {
      var k := FindChild(t.children, dst[0]);
      assert Parent(dst)[1..] == Parent(dst[1..]);
      CreateFileWellFormed(t.children[k], dst[1..], content);
      var child := CreateFile(t.children[k], dst[1..], content);
      assert r.children == t.children[k := child];
      assert child.name == t.children[k].name;
      assert forall j :: 0 <= j < |t.children| ==> r.children[j].name == t.children[j].name;
    }
  }
}
