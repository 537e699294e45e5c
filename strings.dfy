/** String operations behind the translator: its own `split` with an
    explicit separator and `replace(pat, '')`, and the `rfind` of one
    character that `pathlib` uses to find a suffix. */
module Strings {

  /** Number of occurrences of `c` in `s`. */
  function Count(s: string, c: char): nat {
    multiset(s)[c]
  }

  /** Counting distributes over concatenation. */
  lemma CountConcat(a: string, b: string, c: char)
    ensures Count(a + b, c) == Count(a, c) + Count(b, c)
  {
    assert multiset(a + b) == multiset(a) + multiset(b);
  }

  /** Inverse of `Split`: the parts glued back with the separator between them. */
  function Join(parts: seq<string>, sep: char): string
    decreases |parts|
  {
    if parts == [] then []
    else if |parts| == 1 then parts[0]
    else parts[0] + [sep] + Join(parts[1..], sep)
  }

  /** Python's `s.split(sep)` for an explicit one-character separator: empty
      fields are kept, so the result always has one more part than `s` has
      separators, and no part contains the separator. */
  function Split(s: string, sep: char): (parts: seq<string>)
    ensures |parts| == Count(s, sep) + 1
    ensures forall k :: 0 <= k < |parts| ==> sep !in parts[k]
    decreases |s|
  {
    if s == [] then [[]]
    else
      var rest := Split(s[1..], sep);
      assert s == [s[0]] + s[1..];
      assert multiset(s) == multiset([s[0]]) + multiset(s[1..]);
      if s[0] == sep then
        var parts := [[]] + rest;
        assert forall k :: 1 <= k < |parts| ==> parts[k] == rest[k - 1];
        parts
      else
        var parts := [[s[0]] + rest[0]] + rest[1..];
        assert forall k :: 1 <= k < |parts| ==> parts[k] == rest[k];
        parts
  }

  /** Gluing a first part in front of the rest. */
  lemma JoinCons(head: string, tail: seq<string>, sep: char)
    ensures Join([head] + tail, sep) == if tail == [] then head else head + [sep] + Join(tail, sep)
  {
    assert ([head] + tail)[1..] == tail;
  }

  /** `Join` undoes `Split`: splitting loses nothing. */
  lemma {:induction false} JoinSplit(s: string, sep: char)
    ensures Join(Split(s, sep), sep) == s
    decreases |s|
  {
    if s != [] {
      JoinSplit(s[1..], sep);
      JoinSplitStep(s, sep);
      assert s == [s[0]] + s[1..];
    }
  }

  /** One step of `JoinSplit`: the first character in front of the rest. */
  lemma JoinSplitStep(s: string, sep: char)
    requires s != []
    ensures Join(Split(s, sep), sep) == [s[0]] + Join(Split(s[1..], sep), sep)
  {
    var rest := Split(s[1..], sep);
    if s[0] == sep {
      JoinCons([], rest, sep);
    } else {
      var head := [s[0]] + rest[0];
      assert rest == [rest[0]] + rest[1..];
      JoinCons(head, rest[1..], sep);
      JoinCons(rest[0], rest[1..], sep);
    }
  }

  /** Python's `s.rfind(c)`: the index of the last `c`, or -1 when there is none. */
  function RFind(s: string, c: char): (i: int)
    ensures -1 <= i < |s|
    ensures i >= 0 ==> s[i] == c && c !in s[i + 1..]
    ensures i == -1 <==> c !in s
    decreases |s|
  {
    if s == [] then -1
    else if s[|s| - 1] == c then |s| - 1
    else
      var i := RFind(s[..|s| - 1], c);
      assert s == s[..|s| - 1] + [s[|s| - 1]];
      assert i >= 0 ==> s[i + 1..] == s[..|s| - 1][i + 1..] + [s[|s| - 1]];
      i
  }

  /** `pat` occurs in `s` at index `k`. */
  predicate OccursAt(s: string, pat: string, k: nat) {
    k + |pat| <= |s| && s[k..k + |pat|] == pat
  }

  /** `pat` occurs nowhere in `s`. */
  ghost predicate Free(s: string, pat: string) {
    forall k: nat :: !OccursAt(s, pat, k)
  }

  /** Occurrences in `s[1..]` are those in `s`, one position earlier. */
  lemma OccursTail(s: string, pat: string)
    requires s != []
    ensures forall k: nat :: OccursAt(s[1..], pat, k) == OccursAt(s, pat, k + 1)
  {
    forall k: nat ensures OccursAt(s[1..], pat, k) == OccursAt(s, pat, k + 1) {
      if k + |pat| <= |s[1..]| {
        assert s[1..][k..k + |pat|] == s[k + 1..k + 1 + |pat|];
      }
    }
  }

  /** Python's `s.replace(pat, '')`: every non-overlapping occurrence of
      `pat`, found left to right, is deleted; an empty `pat` leaves `s` as is.
      Only characters are deleted, and a string in which `pat` does not occur
      is left as it is. */
  function RemoveAll(s: string, pat: string): (r: string)
    ensures multiset(r) <= multiset(s)
    ensures |r| <= |s|
    ensures (pat == [] || Free(s, pat)) ==> r == s
    decreases |s|
  {
    if pat == [] || |s| < |pat| then s
    else if s[..|pat|] == pat then
      assert s == s[..|pat|] + s[|pat|..];
      assert OccursAt(s, pat, 0);
      RemoveAll(s[|pat|..], pat)
    else
      assert s == [s[0]] + s[1..];
      OccursTail(s, pat);
      [s[0]] + RemoveAll(s[1..], pat)
  }

  /** A prefix `a` in which no occurrence of `pat` starts is copied as it is,
      and the scan goes on with what follows it. */
  lemma {:induction false} RemoveAllKeepsPrefix(a: string, t: string, pat: string)
    requires pat != []
    requires forall k: nat :: k < |a| ==> !OccursAt(a + t, pat, k)
    ensures RemoveAll(a + t, pat) == a + RemoveAll(t, pat)
    decreases |a|
  {
    if a == [] {
      assert a + t == t;
    } else {
      var s := a + t;
      assert s[1..] == a[1..] + t;
      NoneStartsInTail(a, t, pat);
      RemoveAllKeepsPrefix(a[1..], t, pat);
      assert |s| < |pat| || s[..|pat|] != pat by {
        assert !OccursAt(s, pat, 0);
        if |pat| <= |s| {
          assert s[0..|pat|] == s[..|pat|];
        }
      }
      ConsAssoc(a[0], a[1..], RemoveAll(t, pat));
      assert a == [a[0]] + a[1..];
    }
  }

  /** No occurrence starts in `a[1..]` when none starts in `a`. */
  lemma NoneStartsInTail(a: string, t: string, pat: string)
    requires a != []
    requires forall k: nat :: k < |a| ==> !OccursAt(a + t, pat, k)
    ensures forall k: nat :: k < |a[1..]| ==> !OccursAt(a[1..] + t, pat, k)
  {
    var s := a + t;
    assert s[1..] == a[1..] + t;
    OccursTail(s, pat);
  }

  /** Regrouping a character put in front of a concatenation. */
  lemma ConsAssoc(c: char, x: string, y: string)
    ensures [c] + (x + y) == ([c] + x) + y
  {
  }

  /** An occurrence at the front is deleted. */
  lemma RemoveAllLeading(pat: string, s: string)
    requires pat != []
    ensures RemoveAll(pat + s, pat) == RemoveAll(s, pat)
  {
    assert (pat + s)[..|pat|] == pat;
    assert (pat + s)[|pat|..] == s;
  }

  /** `replace` deletes the first occurrence of `pat` and keeps what comes
      before it: when no occurrence starts inside `a`, the result on
      `a + pat + b` is `a` followed by the result on `b`. */
  lemma RemoveAllFirst(a: string, pat: string, b: string)
    requires pat != []
    requires forall k: nat :: k < |a| ==> !OccursAt(a + pat + b, pat, k)
    ensures RemoveAll(a + pat + b, pat) == a + RemoveAll(b, pat)
  {
    assert a + pat + b == a + (pat + b);
    RemoveAllKeepsPrefix(a, pat + b, pat);
    RemoveAllLeading(pat, b);
  }

  /** When the first character of `pat` does not occur in `stem`, the only
      occurrence of `pat` in `stem + pat` is the trailing one, so removing all
      occurrences is the same as stripping the suffix. */
  lemma {:induction false} RemoveAllTrailing(stem: string, pat: string)
    requires pat != []
    requires pat[0] !in stem
    ensures RemoveAll(stem + pat, pat) == stem
    decreases |stem|
  {
    var s := stem + pat;
    if stem == [] {
      assert s == pat;
      assert s[..|pat|] == pat;
      assert s[|pat|..] == [];
    } else {
      assert s[0] == stem[0] != pat[0];
      assert s[..|pat|] != pat by {
        assert s[..|pat|][0] == s[0];
      }
      assert s[1..] == stem[1..] + pat;
      RemoveAllTrailing(stem[1..], pat);
      assert stem == [stem[0]] + stem[1..];
    }
  }
}
