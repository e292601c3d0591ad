/** The table of a memory file system as a tree: one entry a file, each with the index of its directory. */
module Nametree {
  import opened Bytes

  const NRAM: nat := 2048

  /** An entry of the table; path is what identifies the file to clients. */
  datatype Entry = Entry(busy: bool, dir: bool, path: nat, parent: nat, name: string)

  type Table = seq<Entry>

  const FREE := Entry(false, false, 0, 0, "")

  predicate InDir(t: Table, i: nat, d: nat)
    requires i < |t|
  {
    t[i].busy && t[i].parent == d
  }

  /** The entry is in a directory, which is nearer to the root unless it is the root's own. */
  ghost predicate Hangs(t: Table, depth: seq<nat>, i: nat)
    requires i < |t| == |depth|
  {
    && t[i].parent < |t| && t[t[i].parent].busy && t[t[i].parent].dir
    && (i > 0 ==> depth[t[i].parent] < depth[i])
  }

  ghost predicate Names(t: Table) {
    forall i, j :: 0 <= i < j < |t| && t[i].busy && t[j].busy && t[i].parent == t[j].parent ==> t[i].name != t[j].name
  }

  /** The namespace invariant. */
  ghost predicate Tree(t: Table, n: nat, depth: seq<nat>) {
    && |t| == NRAM == |depth| && n <= NRAM
    && t[0].busy && t[0].dir && t[0].parent == 0
    && (forall i {:trigger Hangs(t, depth, i)} :: 0 <= i < NRAM && t[i].busy ==> Hangs(t, depth, i))
    && (forall i :: 0 <= i < NRAM ==> t[i].parent < NRAM && if t[i].busy then i < n else !t[i].dir)
    && Names(t)
  }

  /** k directories up from an entry. */
  ghost function Up(t: Table, i: nat, k: nat): nat
    decreases k
  {
    if k == 0 || i >= |t| then i else Up(t, t[i].parent, k - 1)
  }

  /** The chain of k directories above an entry consists of directories and ends at the root. */
  ghost predicate Chain(t: Table, i: nat, k: nat)
    decreases k
  {
    && i < |t| && t[i].busy
    && if k == 0 then i == 0 else t[i].parent < |t| && t[t[i].parent].dir && Chain(t, t[i].parent, k - 1)
  }

  /** Every entry has such a chain. */
  lemma {:induction false} ReachesRoot(t: Table, n: nat, depth: seq<nat>, i: nat) returns (k: nat)
    requires Tree(t, n, depth) && i < NRAM && t[i].busy
    ensures Chain(t, i, k) && Up(t, i, k) == 0
    decreases depth[i]
  {
    if i == 0 {
      return 0;
    }
    assert Hangs(t, depth, i);
    var k' := ReachesRoot(t, n, depth, t[i].parent);
    k := k' + 1;
  }

  predicate Empty(t: Table, d: nat) { forall i :: 0 <= i < |t| ==> !InDir(t, i, d) }

  /** What identifies files: only the root has path 0, and no two files share a path other than 1. */
  ghost predicate Paths(t: Table, last: nat) {
    && (forall i :: 0 <= i < |t| && t[i].busy ==> (t[i].path == 0 <==> i == 0) && (t[i].path <= last || t[i].path == 1))
    && (forall i :: 0 <= i < |t| && !t[i].busy ==> t[i].path == 0)
    && (forall i, j :: 0 <= i < j < |t| && t[i].busy && t[j].busy && t[i].path == t[j].path ==> t[i].path == 1)
  }

  // ---- lookup ----

  /** The entry of that name in that directory. */
  ghost predicate IsChild(t: Table, d: nat, name: string, c: Option<nat>) {
    match c
    case Some(i) => i < |t| && InDir(t, i, d) && t[i].name == name
    case None => forall i :: 0 <= i < |t| && InDir(t, i, d) ==> t[i].name != name
  }

  lemma ChildUnique(t: Table, d: nat, name: string, c: Option<nat>, c': Option<nat>)
    requires Names(t) && IsChild(t, d, name, c) && IsChild(t, d, name, c')
    ensures c == c'
  {
  }

  // ---- the three changes to the tree ----

  /** A new entry in a free place. */
  lemma Planted(t: Table, n: nat, depth: seq<nat>, r: nat, e: Entry)
    requires Tree(t, n, depth) && r < NRAM && !t[r].busy && e.busy && e.parent < NRAM && t[e.parent].busy
    requires t[e.parent].dir
    requires IsChild(t, e.parent, e.name, None)
    ensures Tree(t[r := e], if r >= n then r + 1 else n, depth[r := depth[e.parent] + 1])
  {
    var t', depth' := t[r := e], depth[r := depth[e.parent] + 1];
    forall i | 0 <= i < NRAM && t'[i].busy ensures Hangs(t', depth', i) {
      if i != r {
        assert Hangs(t, depth, i);
      }
    }
    forall i, j | 0 <= i < j < NRAM && t'[i].busy && t'[j].busy && t'[i].parent == t'[j].parent
      ensures t'[i].name != t'[j].name
    {
      if i == r {
        assert InDir(t, j, e.parent);
      } else if j == r {
        assert InDir(t, i, e.parent);
      }
    }
  }

  /** An entry that holds nothing goes. */
  lemma Uprooted(t: Table, n: nat, depth: seq<nat>, r: nat)
    requires Tree(t, n, depth) && r < NRAM && (t[r].dir ==> Empty(t, r))
    ensures r != 0 && Tree(t[r := FREE], n, depth)
  {
    var t' := t[r := FREE];
    assert InDir(t, 0, 0);
    forall i | 0 <= i < NRAM && t'[i].busy ensures Hangs(t', depth, i) {
      assert Hangs(t, depth, i);
      if t[i].parent == r {
        assert InDir(t, i, r);
      }
    }
  }

  /** A new name that no entry of the directory has. */
  lemma Renamed(t: Table, n: nat, depth: seq<nat>, r: nat, name: string)
    requires Tree(t, n, depth) && r < NRAM && t[r].busy
    requires name == t[r].name || IsChild(t, t[r].parent, name, None)
    ensures Tree(t[r := t[r].(name := name)], n, depth)
  {
    var t' := t[r := t[r].(name := name)];
    forall i | 0 <= i < NRAM && t'[i].busy ensures Hangs(t', depth, i) {
      assert Hangs(t, depth, i);
    }
    forall i, j | 0 <= i < j < NRAM && t'[i].busy && t'[j].busy && t'[i].parent == t'[j].parent
      ensures t'[i].name != t'[j].name
    {
      if i == r {
        assert InDir(t, j, t[r].parent);
      } else if j == r {
        assert InDir(t, i, t[r].parent);
      }
    }
  }

  // ---- walking ----

  /** The first entry from `from` on with the name in the directory. */
  function Lookup(t: Table, d: nat, name: string, from: nat): Option<nat>
    decreases |t| - from
  {
    if from >= |t| then None
    else if InDir(t, from, d) && t[from].name == name then Some(from)
    else Lookup(t, d, name, from + 1)
  }

  lemma {:induction false} LookupFinds(t: Table, d: nat, name: string, from: nat)
    ensures match Lookup(t, d, name, from)
            case Some(i) => from <= i < |t| && InDir(t, i, d) && t[i].name == name
            case None => forall i :: from <= i < |t| && InDir(t, i, d) ==> t[i].name != name
    decreases |t| - from
  {
    if from < |t| && !(InDir(t, from, d) && t[from].name == name) {
      LookupFinds(t, d, name, from + 1);
    }
  }

  datatype Error =
    | Ebadfid | Eisopen | Enotexist | Enotdir | Eperm | Ename | Einuse | Eexist | Enotempty | Enotowner
    | Eversion | Efull | Excl

  /** Why nothing can be created in the directory d, if so. */
  ghost function CreateError(t: Table, d: nat, name: string, may: bool): Option<Error>
    requires d < |t|
  {
    if !t[d].busy then Some(Enotexist)
    else if !t[d].dir then Some(Enotdir)
    else if !may then Some(Eperm)
    else if name == "." || name == ".." then Some(Ename)
    else if !IsChild(t, d, name, None) then Some(Einuse)
    else if forall j :: 0 <= j < |t| ==> t[j].busy then Some(Efull)
    else None
  }

  /** One name of a walk: the entry it leads to, an error, or nothing at all when there is no such entry. */
  datatype Hop = To(i: nat) | Stop(e: Error) | Nowhere

  function Follow(t: Table, cur: nat, name: string, may: nat -> bool): Hop
    requires cur < |t|
  {
    if !t[cur].dir then Stop(Enotdir)
    else if !t[cur].busy then Stop(Enotexist)
    else if name == "." then To(cur)
    else if !may(t[cur].parent) then Stop(Eperm)
    else if name == ".." then To(t[cur].parent)
    else match Lookup(t, cur, name, 0)
         case Some(i) => To(i)
         case None => Nowhere
  }

  /** "." stays, ".." leads to the directory an entry is in, and so back from any name; all but "." takes permission. */
  lemma FollowLaws(t: Table, cur: nat, name: string, may: nat -> bool)
    requires cur < |t| && t[cur].busy && t[cur].dir
    ensures Follow(t, cur, ".", may) == To(cur)
    ensures Follow(t, cur, "..", may) == if may(t[cur].parent) then To(t[cur].parent) else Stop(Eperm)
    ensures name != "." && name != ".." && may(t[cur].parent) ==>
              match Follow(t, cur, name, may)
              case To(i) =>
                && IsChild(t, cur, name, Some(i))
                && (t[i].dir && may(cur) ==> Follow(t, i, "..", may) == To(cur))
              case Nowhere => IsChild(t, cur, name, None)
              case Stop(_) => false
    ensures name != "." && !may(t[cur].parent) ==> Follow(t, cur, name, may) == Stop(Eperm)
  {
    LookupFinds(t, cur, name, 0);
  }

  /** Nothing is followed from a file, nor from what was removed. */
  lemma FollowNowhere(t: Table, cur: nat, name: string, may: nat -> bool)
    requires cur < |t| && !(t[cur].busy && t[cur].dir)
    ensures Follow(t, cur, name, may) == Stop(if t[cur].dir then Enotexist else Enotdir)
  {
  }

  /** A walk along names: the entries met, and the error that stopped it if one did. */
  function Trail(t: Table, cur: nat, names: seq<string>, may: nat -> bool): (seq<nat>, Option<Error>)
    requires cur < |t| && forall i :: 0 <= i < |t| ==> t[i].parent < |t|
    decreases |names|
  {
    if names == [] then ([], None)
    else match Follow(t, cur, names[0], may)
         case Stop(e) => ([], Some(e))
         case Nowhere => ([], None)
         case To(i) =>
           if i >= |t| then ([], None) else
           var (rest, e) := Trail(t, i, names[1..], may);
           ([i] + rest, e)
  }

  /** A walk meets only entries in use. */
  lemma {:induction false} TrailLive(t: Table, n: nat, depth: seq<nat>, cur: nat, names: seq<string>, may: nat -> bool)
    requires Tree(t, n, depth) && cur < NRAM
    ensures forall k :: 0 <= k < |Trail(t, cur, names, may).0| ==> Trail(t, cur, names, may).0[k] < NRAM
    ensures forall k :: 0 <= k < |Trail(t, cur, names, may).0| ==> t[Trail(t, cur, names, may).0[k]].busy
    ensures |Trail(t, cur, names, may).0| <= |names|
    decreases |names|
  {
    if names != [] {
      FollowLive(t, n, depth, cur, names[0], may);
      var h := Follow(t, cur, names[0], may);
      if h.To? {
        TrailLive(t, n, depth, h.i, names[1..], may);
      }
    }
  }

  /** Removing an entry, unless it is a directory that holds something. */
  ghost function UprootAt(t: Table, i: nat): Table {
    if i >= |t| || (t[i].dir && !Empty(t, i)) then t else t[i := Entry(false, false, 0, 0, "")]
  }

  /** Removing entries one after the other. */
  ghost function AllUprooted(t: Table, todo: seq<nat>): Table
    decreases |todo|
  {
    if todo == [] then t else AllUprooted(UprootAt(t, todo[0]), todo[1..])
  }

  /** The entries marked. */
  ghost function Doomed(marks: seq<Option<nat>>): seq<nat> {
    if marks == [] then [] else (match marks[0] { case None => [] case Some(i) => [i] }) + Doomed(marks[1..])
  }

  lemma DoomedNext(t: Table, marks: seq<Option<nat>>, i: nat)
    requires i < |marks|
    ensures AllUprooted(t, Doomed(marks[i..])) ==
      AllUprooted(match marks[i] { case None => t case Some(r) => UprootAt(t, r) }, Doomed(marks[i + 1..]))
  {
    var rest := Doomed(marks[i + 1..]);
    assert marks[i..][1..] == marks[i + 1..];
    match marks[i] {
      case None => assert [] + rest == rest;
      case Some(r) => assert ([r] + rest)[1..] == rest;
    }
  }

  lemma FollowLive(t: Table, n: nat, depth: seq<nat>, cur: nat, name: string, may: nat -> bool)
    requires Tree(t, n, depth) && cur < NRAM
    ensures var h := Follow(t, cur, name, may); h.To? ==> h.i < NRAM && t[h.i].busy && t[cur].busy
  {
    if t[cur].busy {
      assert Hangs(t, depth, cur);
    }
    LookupFinds(t, cur, name, 0);
  }

  /** One more name of a walk that has come as far as cur. */
  lemma {:induction false} TrailStep(t: Table, start: nat, names: seq<string>, may: nat -> bool, i: nat,
      steps: seq<nat>, cur: nat)
    requires start < |t| && (forall i :: 0 <= i < |t| ==> t[i].parent < |t|)
    requires cur < |t| && i < |names| && Onward(t, start, names, may, i, steps, cur)
    ensures match Follow(t, cur, names[i], may)
            case To(c) => c < |t| ==> Onward(t, start, names, may, i + 1, steps + [c], c)
            case Stop(e) => Trail(t, start, names, may) == (steps, Some(e))
            case Nowhere => Trail(t, start, names, may) == (steps, None)
  {
    assert names[i..][0] == names[i] && names[i..][1..] == names[i + 1..];
    match Follow(t, cur, names[i], may)
    case To(c) =>
      if c < |t| {
        var rest := Trail(t, c, names[i + 1..], may).0;
        assert steps + ([c] + rest) == (steps + [c]) + rest;
      }
    case _ => assert steps + [] == steps;
  }

  /** After i names the walk has met `steps` and stands at cur. */
  ghost predicate Onward(t: Table, start: nat, names: seq<string>, may: nat -> bool, i: nat, steps: seq<nat>, cur: nat)
    requires start < |t| && cur < |t| && forall i :: 0 <= i < |t| ==> t[i].parent < |t|
  {
    && i <= |names| && |steps| == i
    && cur == (if steps == [] then start else steps[i - 1])
    && Trail(t, start, names, may) == (steps + Trail(t, cur, names[i..], may).0, Trail(t, cur, names[i..], may).1)
  }

  /** What was created is found by its name. */
  lemma CreatedIsFound(t: Table, d: nat, name: string, r: nat, e: Entry)
    requires r < |t| && !t[r].busy && IsChild(t, d, name, None)
    requires e.busy && e.parent == d && e.name == name
    ensures Lookup(t[r := e], d, name, 0) == Some(r)
  {
    var t' := t[r := e];
    LookupFinds(t', d, name, 0);
    assert InDir(t', r, d);
    if Lookup(t', d, name, 0) != Some(r) {
      var i := Lookup(t', d, name, 0).value;
      assert InDir(t, i, d);
    }
  }

  /** What was removed is not, and everything else still is. */
  lemma RemovedIsGone(t: Table, r: nat, d: nat, name: string)
    requires r < |t| && t[r].busy && Names(t)
    ensures Lookup(t[r := FREE], d, name, 0)
            == if t[r].parent == d && t[r].name == name then None else Lookup(t, d, name, 0)
  {
    var t' := t[r := FREE];
    LookupFinds(t, d, name, 0);
    LookupFinds(t', d, name, 0);
    assert InDir(t, r, t[r].parent);
    assert forall i :: 0 <= i < |t| && i != r ==> (InDir(t', i, d) <==> InDir(t, i, d));
  }

  lemma PathsPlanted(t: Table, last: nat, r: nat, e: Entry)
    requires Paths(t, last) && 0 < r < |t| && !t[r].busy && e.busy && e.path == last + 1
    ensures Paths(t[r := e], last + 1)
  {
  }

  lemma PathsUprooted(t: Table, last: nat, r: nat)
    requires Paths(t, last) && 0 < r < |t|
    ensures Paths(t[r := FREE], last)
  {
  }

  lemma PathsRenamed(t: Table, last: nat, r: nat, name: string)
    requires Paths(t, last) && r < |t|
    ensures Paths(t[r := t[r].(name := name)], last)
  {
  }
}
