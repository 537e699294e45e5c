/** `traversal`: the depth-first walk that lists every file to translate. */
module TreeWalker {
  import opened PurePaths
  import opened FileTree
  import opened PathFilter

  /** The list the caller owns and `Traversal` appends to. */
  class PathList {
    var items: seq<Path>

    constructor ()
      ensures items == []
    {
      items := [];
    }

    method Append(p: Path)
      modifies this
      ensures items == old(items) + [p]
    {
      items := items + [p];
    }
  }

  /** What the walk appends for the directory `e` found at path `p`. */
  function Collect(p: Path, e: Entry): seq<Path>
    decreases e, 1, 0
  {
    if e.Dir? then CollectFrom(p, e, 0) else []
  }

  /** What the walk appends for the entries of `d` from index `i` on. */
  function CollectFrom(p: Path, d: Entry, i: nat): seq<Path>
    requires d.Dir? && i <= |d.children|
    decreases d, 0, |d.children| - i
  {
    if i == |d.children| then []
    else Visit(p, d.children[i]) + CollectFrom(p, d, i + 1)
  }

  /** What the walk appends for one entry `item` of the directory at `p`: a
      directory is walked in place, an accepted entry adds its own path, and
      anything else adds nothing. */
  function Visit(p: Path, item: Entry): seq<Path>
    decreases item, 2, 0
  {
    if item.Dir? then Collect(p + [item.name], item)
    else if IsValid(item) then [p + [item.name]]
    else []
  }

  /** Walks the directory `dir` found at `thePath`, entry by entry in listing
      order, and appends what it finds to `toProcess`; what was already in the
      list stays in front, in its order. */
  method Traversal(thePath: Path, dir: Entry, toProcess: PathList)
    requires dir.Dir?
    modifies toProcess
    ensures toProcess.items == old(toProcess.items) + Collect(thePath, dir)
    decreases dir
  {
    ghost var start := toProcess.items;
    var i := 0;
    while i < |dir.children|
      invariant 0 <= i <= |dir.children|
      invariant toProcess.items + CollectFrom(thePath, dir, i) == start + Collect(thePath, dir)
    {
      var item := dir.children[i];
      ghost var before := toProcess.items;
      if item.Dir? {
        Traversal(thePath + [item.name], item, toProcess);
      } else if IsValid(item) {
        toProcess.Append(thePath + [item.name]);
      } else {
        assert toProcess.items == before + [];
      }
      CollectFromStep(thePath, dir, i, before, toProcess.items);
      i := i + 1;
    }
  }

  /** One entry's turn in `Traversal`'s loop: the entries still to walk
      contribute what the current one does followed by the rest. */
  lemma CollectFromStep(p: Path, d: Entry, i: nat, before: seq<Path>, after: seq<Path>)
    requires d.Dir? && i < |d.children|
    requires after == before + Visit(p, d.children[i])
    ensures after + CollectFrom(p, d, i + 1) == before + CollectFrom(p, d, i)
  {
  }

  /** No path occurs twice. */
  predicate Distinct(s: seq<Path>) {
    forall a, b :: 0 <= a < b < |s| ==> s[a] != s[b]
  }

  /** Every path the walk lists lies below `p` and names an accepted entry:
      a regular file, never a directory. */
  lemma {:induction false} CollectSound(p: Path, e: Entry, q: Path)
    requires WellFormed(e)
    requires q in Collect(p, e)
    ensures |q| > |p| && q[..|p|] == p
    ensures Lookup(e, q[|p|..]).Some? && IsValid(Lookup(e, q[|p|..]).value)
    decreases e, 1, 0
  {
    CollectFromSound(p, e, 0, q);
  }

  /** `CollectSound` for the entries from index `i` on; the component below
      `p` is the name of one of those entries. */
  lemma {:induction false} CollectFromSound(p: Path, d: Entry, i: nat, q: Path)
    requires WellFormed(d) && d.Dir? && i <= |d.children|
    requires q in CollectFrom(p, d, i)
    ensures |q| > |p| && q[..|p|] == p
    ensures exists j :: i <= j < |d.children| && q[|p|] == d.children[j].name
    ensures Lookup(d, q[|p|..]).Some? && IsValid(Lookup(d, q[|p|..]).value)
    decreases d, 0, |d.children| - i
  {
    CollectFromIn(p, d, i, q);
    if q in CollectFrom(p, d, i + 1) {
      CollectFromSound(p, d, i + 1, q);
    } else {
      VisitSound(p, d, i, q);
    }
  }

  /** `CollectSound` for what the entry at index `i` contributes. */
  lemma {:induction false} VisitSound(p: Path, d: Entry, i: nat, q: Path)
    requires WellFormed(d) && d.Dir? && i < |d.children|
    requires q in Visit(p, d.children[i])
    ensures |q| > |p| && q[..|p|] == p && q[|p|] == d.children[i].name
    ensures Lookup(d, q[|p|..]).Some? && IsValid(Lookup(d, q[|p|..]).value)
    decreases d, 0, |d.children| - i - 1
  {
    var item := d.children[i];
    var below := p + [item.name];
    if item.Dir? {
      CollectSound(below, item, q);
      PathBelow(p, item.name, q);
      assert q[|p|..][1..] == q[|below|..];
    } else {
      assert q == below;
      PathBelow(p, item.name, q);
      assert q[|p|..][1..] == [];
    }
    FindChildUnique(d.children, i);
    LookupThrough(d, i, q[|p|..]);
  }

  /** A path that begins with `p + [name]` has `p` in front and `name` next. */
  lemma PathBelow(p: Path, name: string, q: Path)
    requires |q| > |p| && q[..|p| + 1] == p + [name]
    ensures q[..|p|] == p && q[|p|] == name
  {
    assert q[..|p|] == q[..|p| + 1][..|p|];
    assert q[|p|] == q[..|p| + 1][|p|];
  }

  /** Looking up a path whose first component names the `i`-th entry goes
      through that entry. */
  lemma LookupThrough(d: Entry, i: nat, r: Path)
    requires d.Dir? && i < |d.children| && FindChild(d.children, d.children[i].name) == i
    requires r != [] && r[0] == d.children[i].name
    ensures Lookup(d, r) == Lookup(d.children[i], r[1..])
  {
  }

  /** Every accepted entry at any depth below `e` is listed. */
  lemma {:induction false} CollectComplete(p: Path, e: Entry, r: Path)
    requires r != [] && Lookup(e, r).Some? && IsValid(Lookup(e, r).value)
    ensures p + r in Collect(p, e)
    decreases e
  {
    var i := FindChild(e.children, r[0]);
    var item := e.children[i];
    var below := p + [item.name];
    CollectFromIn(p, e, i, p + r);
    if |r| == 1 {
      assert r == [item.name];
      assert Lookup(item, r[1..]) == Some(item);
    } else {
      assert item.Dir?;
      CollectComplete(below, item, r[1..]);
      assert below + r[1..] == p + r;
    }
    CollectFromContains(p, e, 0, i, p + r);
  }

  /** The entries from index `j` on contribute everything the entries from a
      later index `i` contribute. */
  lemma {:induction false} CollectFromContains(p: Path, d: Entry, j: nat, i: nat, q: Path)
    requires d.Dir? && j <= i <= |d.children|
    requires q in CollectFrom(p, d, i)
    ensures q in CollectFrom(p, d, j)
    decreases i - j
  {
    if j < i {
      CollectFromContains(p, d, j + 1, i, q);
      CollectFromLater(p, d, j, q);
    }
  }

  /** What the later entries contribute is listed from an earlier one on. */
  lemma CollectFromLater(p: Path, d: Entry, i: nat, q: Path)
    requires d.Dir? && i < |d.children|
    requires q in CollectFrom(p, d, i + 1)
    ensures q in CollectFrom(p, d, i)
  {
    CollectFromIn(p, d, i, q);
  }

  /** A path is listed for the entries from `i` on exactly when the `i`-th
      entry or a later one contributes it. */
  lemma CollectFromIn(p: Path, d: Entry, i: nat, q: Path)
    requires d.Dir? && i < |d.children|
    ensures q in CollectFrom(p, d, i) <==>
              q in Visit(p, d.children[i]) || q in CollectFrom(p, d, i + 1)
  {
    assert CollectFrom(p, d, i) == Visit(p, d.children[i]) + CollectFrom(p, d, i + 1);
  }

  /** Two lists without repeats and without common paths make one. */
  lemma DistinctConcat(a: seq<Path>, b: seq<Path>)
    requires Distinct(a) && Distinct(b)
    requires forall q :: q in a ==> q !in b
    ensures Distinct(a + b)
  {
    var s := a + b;
    forall x, y | 0 <= x < y < |s| ensures s[x] != s[y] {
      if x < |a| && y >= |a| {
        assert s[x] in a && s[y] == b[y - |a|];
      } else if x >= |a| {
        assert s[x] == b[x - |a|] && s[y] == b[y - |a|];
      }
    }
  }

  /** In a tree whose directories have distinct entry names, the walk lists
      no path twice. */
  lemma {:induction false} CollectDistinct(p: Path, e: Entry)
    requires WellFormed(e)
    ensures Distinct(Collect(p, e))
    decreases e, 1, 0
  {
    if e.Dir? {
      CollectFromDistinct(p, e, 0);
    }
  }

  /** `CollectDistinct` for the entries from index `i` on. */
  lemma {:induction false} CollectFromDistinct(p: Path, d: Entry, i: nat)
    requires WellFormed(d) && d.Dir? && i <= |d.children|
    ensures Distinct(CollectFrom(p, d, i))
    decreases d, 0, |d.children| - i
  {
    if i < |d.children| {
      var item := d.children[i];
      var below := p + [item.name];
      var here := Visit(p, item);
      var rest := CollectFrom(p, d, i + 1);
      assert CollectFrom(p, d, i) == here + rest;
      CollectFromDistinct(p, d, i + 1);
      if item.Dir? {
        CollectDistinct(below, item);
      }
      VisitDisjoint(p, d, i);
      DistinctConcat(here, rest);
    }
  }

  /** What one entry contributes shares no path with what the later entries
      contribute: the component below `p` tells them apart. */
  lemma VisitDisjoint(p: Path, d: Entry, i: nat)
    requires WellFormed(d) && d.Dir? && i < |d.children|
    ensures forall q :: q in Visit(p, d.children[i]) ==> q !in CollectFrom(p, d, i + 1)
  {
    forall q | q in Visit(p, d.children[i]) ensures q !in CollectFrom(p, d, i + 1) {
      VisitSound(p, d, i, q);
      NotListedLater(p, d, i, q);
    }
  }

  /** A path whose component below `p` names the `i`-th entry is not among
      what the later entries contribute. */
  lemma NotListedLater(p: Path, d: Entry, i: nat, q: Path)
    requires WellFormed(d) && d.Dir? && i < |d.children|
    requires |q| > |p| && q[|p|] == d.children[i].name
    ensures q !in CollectFrom(p, d, i + 1)
  {
    if q in CollectFrom(p, d, i + 1) {
      CollectFromSound(p, d, i + 1, q);
    }
  }

  /** The walk's promise: each accepted file below the root is listed, and
      listed exactly once. */
  lemma ListedExactlyOnce(p: Path, root: Entry, r: Path)
    requires WellFormed(root)
    requires r != [] && Lookup(root, r).Some? && IsValid(Lookup(root, r).value)
    ensures p + r in Collect(p, root)
    ensures forall a, b :: 0 <= a < b < |Collect(p, root)| ==>
              Collect(p, root)[a] != Collect(p, root)[b]
  {
    CollectComplete(p, root, r);
    CollectDistinct(p, root);
  }
}
