/** The table of open descriptors: slots that share counted objects. */
module Fdtab {

  const GROWTH: nat := 32

  /** An open object. `released` counts how often its resources were given back. */
  class Fd {
    var users: nat
    ghost var released: nat

    constructor ()
      ensures users == 1 && released == 0
    {
      users, released := 1, 0;
    }
  }

  type Slots = seq<Fd?>

  /** Empty slots. */
  function Nils(n: nat): Slots { seq(n, _ => null) }

  ghost function Occupied(s: Slots): nat {
    if s == [] then 0 else Occupied(s[..|s| - 1]) + if s[|s| - 1] == null then 0 else 1
  }

  /** How many slots hold f. */
  ghost function Holding(s: Slots, f: Fd): nat {
    if s == [] then 0 else Holding(s[..|s| - 1], f) + if s[|s| - 1] == f then 1 else 0
  }

  lemma {:induction false} HoldingSet(s: Slots, i: nat, x: Fd?, f: Fd)
    requires i < |s|
    ensures Holding(s[i := x], f) == Holding(s, f) - (if s[i] == f then 1 else 0) + (if x == f then 1 else 0)
    ensures s[i] == f ==> Holding(s, f) > 0
    decreases |s|
  {
    var t := s[i := x];
    if i < |s| - 1 {
      HoldingSet(s[..|s| - 1], i, x, f);
      assert t[..|t| - 1] == s[..|s| - 1][i := x];
    } else {
      assert t[..|t| - 1] == s[..|s| - 1];
    }
  }

  lemma {:induction false} OccupiedSet(s: Slots, i: nat, x: Fd?)
    requires i < |s|
    ensures Occupied(s[i := x]) == Occupied(s) - (if s[i] == null then 0 else 1) + (if x == null then 0 else 1)
    ensures s[i] != null ==> Occupied(s) > 0
    decreases |s|
  {
    var t := s[i := x];
    if i < |s| - 1 {
      OccupiedSet(s[..|s| - 1], i, x);
      assert t[..|t| - 1] == s[..|s| - 1][i := x];
    } else {
      assert t[..|t| - 1] == s[..|s| - 1];
    }
  }

  lemma {:induction false} CountNone(s: Slots, f: Fd)
    ensures Holding(s, f) == 0 <==> f !in s
    decreases |s|
  {
    if s != [] {
      CountNone(s[..|s| - 1], f);
      assert s == s[..|s| - 1] + [s[|s| - 1]];
    }
  }

  lemma {:induction false} CountGrown(s: Slots, n: nat, f: Fd)
    ensures Occupied(s + Nils(n)) == Occupied(s) && Holding(s + Nils(n), f) == Holding(s, f)
    decreases n
  {
    var t := s + Nils(n);
    if n == 0 {
      assert t == s;
    } else {
      CountGrown(s, n - 1, f);
      assert t[..|t| - 1] == s + Nils(n - 1);
    }
  }

  lemma {:induction false} OccupiedGrown(s: Slots, n: nat)
    ensures Occupied(s + Nils(n)) == Occupied(s)
    decreases n
  {
    var t := s + Nils(n);
    if n == 0 {
      assert t == s;
    } else {
      OccupiedGrown(s, n - 1);
      assert t[..|t| - 1] == s + Nils(n - 1);
    }
  }

  /** When the first n slots are full and n slots are, the next is empty. */
  lemma {:induction false} Pigeonhole(s: Slots, n: nat)
    requires n < |s| && Occupied(s) <= n && forall i :: 0 <= i < n ==> s[i] != null
    ensures s[n] == null && Occupied(s) == n
  {
    FullPrefix(s, n, |s|);
    FullPrefix(s, n, n + 1);
    assert s[..|s|] == s && s[..n + 1][..n] == s[..n];
    OccupiedMono(s, n + 1);
    FullPrefix(s, n, n);
  }

  lemma {:induction false} FullPrefix(s: Slots, n: nat, m: nat)
    requires n <= m <= |s| && forall i :: 0 <= i < n ==> s[i] != null
    ensures Occupied(s[..m]) >= n && (m == n ==> Occupied(s[..m]) == n)
    decreases m
  {
    if m > 0 {
      assert s[..m][..m - 1] == s[..m - 1];
      FullPrefix(s, if n == m then n - 1 else n, m - 1);
    }
  }

  lemma {:induction false} OccupiedMono(s: Slots, m: nat)
    requires m <= |s|
    ensures Occupied(s[..m]) <= Occupied(s)
    decreases |s|
  {
    if m < |s| {
      OccupiedMono(s[..|s| - 1], m);
      assert s[..|s| - 1][..m] == s[..m];
    } else {
      assert s[..m] == s;
    }
  }

  class Table {
    var fdtab: array<Fd?>
    var nfd: nat
    ghost var made: set<Fd>

    /** An object's users are the slots that hold it, and it is released when there are none: once. */
    ghost predicate Counted(f: Fd) reads this, fdtab, f {
      f.users == Holding(fdtab[..], f) && f.released == if f.users == 0 then 1 else 0
    }

    ghost predicate Valid() reads this, fdtab, made {
      && nfd == Occupied(fdtab[..])
      && (forall i :: 0 <= i < fdtab.Length && fdtab[i] != null ==> fdtab[i] in made)
      && (forall f :: f in made ==> Counted(f))
    }

    /** `fdtabinit`: the three standard descriptors. */
    constructor ()
      ensures Valid() && nfd == 3 && fdtab.Length == 32 && fresh(fdtab) && fresh(made)
      ensures forall i :: 0 <= i < 32 ==> (fdtab[i] != null <==> i < 3)
      ensures fdtab[0] != fdtab[1] && fdtab[1] != fdtab[2] && fdtab[0] != fdtab[2]
      ensures made == {fdtab[0], fdtab[1], fdtab[2]}
    {
      fdtab := new Fd?[GROWTH](_ => null);
      nfd := 3;
      var a := new Fd();
      var b := new Fd();
      var c := new Fd();
      made := {a, b, c};
      new;
      fdtab[2] := a;
      fdtab[0] := b;
      fdtab[1] := c;
      StdCounts(a, b, c);
      assert fdtab[..] == [b, c, a] + Nils(GROWTH - 3);
    }

    /** `need`: grows by whole steps and keeps the slots. */
    method Need(n: nat)
      requires Valid()
      modifies this`fdtab
      ensures Valid() && fdtab.Length >= n && fdtab.Length >= old(fdtab.Length) && (fdtab == old(fdtab) || fresh(fdtab))
      ensures fdtab[..] == old(fdtab[..]) + Nils(fdtab.Length - old(fdtab.Length))
      ensures (fdtab.Length - old(fdtab.Length)) % 32 == 0
      ensures if n <= old(fdtab.Length) then fdtab == old(fdtab) else fdtab.Length < n + 32
    {
      if n > fdtab.Length {
        var old' := fdtab;
        var size := fdtab.Length;
        while n > size
          invariant size >= old'.Length && (size - old'.Length) % 32 == 0 && size < n + 32
        {
          size := size + GROWTH;
        }
        var t := new Fd?[size](i requires 0 <= i reads old' => if i < old'.Length then old'[i] else null);
        fdtab := t;
        assert t[..] == old'[..] + Nils(size - old'.Length);
        OccupiedGrown(old'[..], size - old'.Length);
        forall f | f in made ensures Counted(f) {
          CountGrown(old'[..], size - old'.Length, f);
        }
      }
    }

    /** `fdtget`. */
    function Get(fd: int): (f: Fd?)
      reads this, fdtab
      ensures f == null <==> !(0 <= fd < fdtab.Length && fdtab[fd] != null)
    {
      if fd < 0 || fd >= fdtab.Length then null else fdtab[fd]
    }

    /** `releasef`: the object's resources are given back. */
    method Release(f: Fd)
      modifies f`released
      ensures f.released == old(f.released) + 1
    {
      f.released := f.released + 1;
    }

    /** What one changed slot does to the counts. */
    lemma SlotSet(s: Slots, i: nat, x: Fd?)
      requires i < |s| && fdtab[..] == s[i := x]
      ensures Occupied(fdtab[..]) == Occupied(s) - (if s[i] == null then 0 else 1) + (if x == null then 0 else 1)
      ensures forall f: Fd :: f in made ==>
                Holding(fdtab[..], f) == Holding(s, f) - (if s[i] == f then 1 else 0) + (if x == f then 1 else 0)
      ensures forall f: Fd :: f in made && s[i] == f ==> Holding(s, f) > 0
      ensures s[i] != null ==> Occupied(s) > 0
    {
      OccupiedSet(s, i, x);
      forall f: Fd | f in made
        ensures Holding(fdtab[..], f) == Holding(s, f) - (if s[i] == f then 1 else 0) + (if x == f then 1 else 0)
        ensures s[i] == f ==> Holding(s, f) > 0
      {
        HoldingSet(s, i, x, f);
      }
    }

    /** The scan of `fdtalloc`: nfd slots are full, so one of the first nfd + 1 is free. */
    method FirstFree() returns (i: nat)
      requires Valid() && nfd < fdtab.Length
      ensures i <= nfd && fdtab[i] == null && forall j :: 0 <= j < i ==> fdtab[j] != null
    {
      i := 0;
      while i < nfd
        invariant 0 <= i <= nfd && forall j :: 0 <= j < i ==> fdtab[j] != null
      {
        if fdtab[i] == null {
          return;
        }
        i := i + 1;
      }
      Pigeonhole(fdtab[..], nfd);
    }

    method Share(i: nat, f: Fd)
      requires Valid() && i < fdtab.Length && fdtab[i] == null && f in made && f.users > 0
      modifies this`nfd, fdtab, f`users
      ensures Valid() && fdtab[..] == old(fdtab[..])[i := f] && nfd == old(nfd) + 1 && f.users == old(f.users) + 1
    {
      ghost var s := fdtab[..];
      hide Occupied, Holding;
      f.users := f.users + 1;
      fdtab[i] := f;
      nfd := nfd + 1;
      SlotSet(s, i, f);
    }

    method Install(i: nat)
      requires Valid() && i < fdtab.Length && fdtab[i] == null
      modifies this`nfd, this`made, fdtab
      ensures Valid() && nfd == old(nfd) + 1
      ensures fdtab[i] != null && fresh(fdtab[i]) && made == old(made) + {fdtab[i]} && fdtab[i].users == 1
      ensures fdtab[..] == old(fdtab[..])[i := fdtab[i]]
    {
      ghost var s := fdtab[..];
      var f := new Fd();
      assert f !in s by {
        assert forall j :: 0 <= j < |s| && s[j] != null ==> s[j] in old(made);
      }
      CountNone(s, f);
      hide Occupied, Holding;
      made := made + {f};
      fdtab[i] := f;
      nfd := nfd + 1;
      SlotSet(s, i, f);
    }

    /** `fdtalloc`: the lowest free slot gets the object, a new one if none is given. */
    method Alloc(dupf: Fd?) returns (i: nat)
      requires Valid() && (dupf != null ==> dupf in made && dupf.users > 0)
      modifies this, fdtab, made
      ensures Valid() && (fdtab == old(fdtab) || fresh(fdtab)) && old(made) <= made && fresh(made - old(made))
      ensures i < fdtab.Length && fdtab[i] != null && (if dupf != null then fdtab[i] == dupf else fresh(fdtab[i]))
      ensures made == old(made) + if dupf != null then {} else {fdtab[i]}
      ensures |old(fdtab[..])| <= fdtab.Length
      ensures fdtab[..] == (old(fdtab[..]) + Nils(fdtab.Length - |old(fdtab[..])|))[i := fdtab[i]]
      ensures i < |old(fdtab[..])| ==> old(fdtab[..])[i] == null
      ensures forall j :: 0 <= j < i ==> fdtab[j] != null
    {
      Need(nfd + 1);
      i := FirstFree();
      hide Valid;
      if dupf != null {
        Share(i, dupf);
      } else {
        Install(i);
      }
    }

    /**
     * `fdtclose`: the slot becomes free, and the object is released if that was the last one.
     * The consistency check that some other slot holds it never fails.
     */
    method Close(fd: int) returns (r: int, fatal: bool)
      requires Valid()
      modifies this`nfd, fdtab, made
      ensures Valid() && !fatal
      ensures if old(Get(fd)) == null then r == -1 && fdtab[..] == old(fdtab[..]) && nfd == old(nfd)
              else r == 0 && 0 <= fd < fdtab.Length && fdtab[..] == old(fdtab[..])[fd := null] && nfd == old(nfd) - 1
    {
      var f := Get(fd);
      if f == null {
        return -1, false;
      }
      ghost var s := fdtab[..];
      assert Counted(f);
      fdtab[fd] := null;
      SlotSet(s, fd, null);
      CountNone(fdtab[..], f);
      hide Occupied, Holding;
      nfd := nfd - 1;
      f.users := f.users - 1;
      fatal := false;
      if f.users != 0 {
        var found := Search(f);
        fatal := !found;
      } else {
        Release(f);
      }
      r := 0;
    }

    /** Whether some slot holds the object. */
    method Search(f: Fd) returns (found: bool)
      ensures found <==> f in fdtab[..]
    {
      var i := 0;
      while i < fdtab.Length
        invariant 0 <= i <= fdtab.Length && f !in fdtab[..i]
      {
        if fdtab[i] == f {
          return true;
        }
        i := i + 1;
      }
      assert fdtab[..] == fdtab[..i];
      found := false;
    }

    /** Whether duplicating onto newfd would free the very object it duplicates. */
    ghost predicate FreesItself(oldfd: int, newfd: int) reads this, fdtab, made {
      oldfd == newfd && Get(oldfd) != null && fdtab[oldfd] in made && fdtab[oldfd].users == 1
    }

    /**
     * `fdtdup`: the new slot shares the object and loses what it held. Onto the same number this
     * works exactly when the object has another slot; otherwise the table keeps a released object.
     */
    method Dup(oldfd: int, newfd: int) returns (r: int)
      requires Valid() && newfd >= -1
      modifies this, fdtab, made
      ensures fdtab == old(fdtab) || fresh(fdtab)
      ensures made == old(made)
      ensures old(Get(oldfd)) == null ==> r == -1 && Valid() && fdtab[..] == old(fdtab[..]) && nfd == old(nfd)
      ensures old(Get(oldfd)) != null ==> r >= 0 && r < fdtab.Length && fdtab.Length >= old(fdtab.Length)
      ensures old(Get(oldfd)) != null ==>
                fdtab[..] == (old(fdtab[..]) + Nils(fdtab.Length - old(fdtab.Length)))[r := old(Get(oldfd))]
      ensures old(Get(oldfd)) != null && newfd >= 0 ==> r == newfd
      ensures old(Get(oldfd)) != null && newfd == -1 ==>
                (r < old(fdtab.Length) ==> old(fdtab[..])[r] == null) && forall j :: 0 <= j < r ==> fdtab[j] != null
      ensures Valid() <==> !old(FreesItself(oldfd, newfd))
      ensures old(FreesItself(oldfd, newfd)) ==>
                fdtab[newfd] != null && fdtab[newfd].users == 1 && fdtab[newfd].released == 1
    {
      var oldf := Get(oldfd);
      if oldf == null {
        return -1;
      }
      assert Counted(oldf);
      HasUser(oldfd, oldf);
      if newfd == -1 {
        r := Alloc(oldf);
        return;
      }
      ghost var bad := FreesItself(oldfd, newfd);
      r := newfd;
      if newfd >= fdtab.Length {
        Need(newfd + 1);
        Share(newfd, oldf);
      } else if fdtab[newfd] == null {
        assert old(fdtab[..]) + Nils(0) == old(fdtab[..]);
        Share(newfd, oldf);
      } else {
        assert old(fdtab[..]) + Nils(0) == old(fdtab[..]);
        Replace(oldfd, oldf, newfd);
      }
    }

    lemma HasUser(fd: int, f: Fd)
      requires Valid() && 0 <= fd < fdtab.Length && fdtab[fd] == f
      ensures f in made && Counted(f) && f.users > 0
    {
      HoldingSet(fdtab[..], fd, null, f);
    }

    /** The part of `fdtdup` that takes over a slot in use. */
    method Replace(oldfd: nat, oldf: Fd, newfd: nat)
      requires Valid() && oldfd < fdtab.Length && newfd < fdtab.Length && fdtab[oldfd] == oldf && fdtab[newfd] != null
      modifies this`nfd, fdtab, made
      ensures fdtab[..] == old(fdtab[..])[newfd := oldf]
      ensures Valid() <==> !(oldfd == newfd && old(oldf.users) == 1)
      ensures oldfd == newfd && old(oldf.users) == 1 ==> oldf.users == 1 && oldf.released == 1
    {
      ghost var s := fdtab[..];
      var f := fdtab[newfd];
      HasUser(oldfd, oldf);
      HasUser(newfd, f);
      OccupiedSet(s, newfd, null);
      if oldfd != newfd && f == oldf {
        HoldingSet(s, newfd, null, oldf);
        HoldingSet(s[newfd := null], oldfd, null, oldf);
      }
      hide Occupied, Holding;
      Swap(newfd, f, oldf);
      SlotSet(s, newfd, oldf);
      if oldfd == newfd && old(oldf.users) == 1 {
        assert !Counted(oldf);
      } else {
        forall g | g in made ensures Counted(g) {
          assert g.users == old(g.users) - (if g == f then 1 else 0) + if g == oldf then 1 else 0;
          assert old(Counted(g));
        }
      }
    }

    /** The counters and the slot change hands. */
    method Swap(newfd: nat, f: Fd, oldf: Fd)
      requires newfd < fdtab.Length && nfd > 0 && f.users > 0 && f in made && oldf in made
      modifies this`nfd, fdtab, f, oldf
      ensures fdtab[..] == old(fdtab[..])[newfd := oldf] && nfd == old(nfd)
      ensures f != oldf ==>
                f.users == old(f.users) - 1 && oldf.users == old(oldf.users) + 1 && oldf.released == old(oldf.released)
      ensures f == oldf ==> f.users == old(f.users)
      ensures f.released == old(f.released) + if old(f.users) == 1 then 1 else 0
    {
      f.users := f.users - 1;
      var rf: Fd? := null;
      if f.users == 0 {
        rf := f;
      }
      nfd := nfd - 1;
      fdtab[newfd] := oldf;
      nfd := nfd + 1;
      oldf.users := oldf.users + 1;
      if rf != null {
        Release(rf);
      }
    }

    /** `cleanup`, which leaves standard error to the end: everything is released, and its check never fails. */
    method Cleanup() returns (fatal: bool)
      requires Valid() && fdtab.Length > 2
      modifies this`nfd, fdtab, made
      ensures Valid() && !fatal && nfd == 0 && made == old(made) && fdtab == old(fdtab)
      ensures forall f :: f in made ==> f.released == 1
    {
      var i := 0;
      while i < fdtab.Length
        invariant 0 <= i <= fdtab.Length && Valid()
        invariant forall j :: 0 <= j < i && j != 2 ==> fdtab[j] == null
      {
        if fdtab[i] != null && i != 2 {
          var r, bad := Close(i);
        }
        i := i + 1;
      }
      fatal := false;
      if fdtab[2] != null {
        OnlyOne(fdtab[..], 2);
        if nfd != 1 {
          return true;
        }
        var r, bad := Close(2);
      }
      AllGone();
    }

    lemma AllGone()
      requires Valid() && forall j :: 0 <= j < fdtab.Length ==> fdtab[j] == null
      ensures nfd == 0 && forall f :: f in made ==> f.released == 1
    {
      NoneOccupied(fdtab[..]);
      forall f | f in made ensures f.released == 1 {
        assert Counted(f);
        CountNone(fdtab[..], f);
      }
    }

    // ---- whole runs ----

    lemma Starts(order: seq<Fd>)
      requires Valid() && fdtab.Length == 32 && (forall i :: 0 <= i < 32 ==> (fdtab[i] != null <==> i < 3))
      requires fdtab[0] != fdtab[1] && fdtab[1] != fdtab[2] && fdtab[0] != fdtab[2]
      requires made == {fdtab[0], fdtab[1], fdtab[2]} && order == [fdtab[0], fdtab[1], fdtab[2]]
      ensures Agree(Standard(), order)
    {
      hide Valid;
      assert forall f: Fd :: f in made <==> f in order;
    }

    /** The numbers lead to objects as p says; `order` has all objects in the order they were made. */
    ghost predicate Agree(p: Plain, order: seq<Fd>) reads this, fdtab, made {
      Valid() && Shows(fdtab[..], order, p) && made == (set f | f in order)
    }

    /** A duplication that is allowed does not free what it duplicates. */
    lemma NotItself(p: Plain, order: seq<Fd>, fd: int, newfd: int)
      requires Agree(p, order) && Allowed(Op.Dup(fd, newfd), p)
      ensures !FreesItself(fd, newfd)
      ensures Get(fd) == (if fd >= 0 && fd in p.at then order[p.at[fd]] else null)
    {
      if fd == newfd && fd >= 0 && fd in p.at {
        var k :| k in p.at && k != fd && p.at[k] == p.at[fd];
        TwoHold(fdtab[..], fd, k, order[p.at[fd]]);
        HasUser(fd, order[p.at[fd]]);
      }
    }

    method DoOpen(ghost p: Plain, ghost order: seq<Fd>) returns (r: int, ghost order': seq<Fd>)
      requires Agree(p, order)
      modifies this, fdtab, made
      ensures Agree(Step(Op.Open, p).1, order') && r == Step(Op.Open, p).0 && order <= order'
      ensures old(made) <= made && fresh(made - old(made))
      ensures (fdtab == old(fdtab) || fresh(fdtab)) && fdtab.Length >= old(fdtab.Length)
    {
      ghost var s := fdtab[..];
      hide Valid, Occupied, Holding, Counted;
      var i := Alloc(null);
      ghost var f: Fd := fdtab[i];
      order' := order + [f];
      hide Nils, Shows, Lowest;
      OpenShows(s, fdtab[..], order, p, i, f);
      r := i;
    }

    method DoDup(fd: int, newfd: int, ghost p: Plain, ghost order: seq<Fd>) returns (r: int)
      requires Agree(p, order) && Allowed(Op.Dup(fd, newfd), p)
      modifies this, fdtab, made
      ensures Agree(Step(Op.Dup(fd, newfd), p).1, order) && r == Step(Op.Dup(fd, newfd), p).0 && made == old(made)
      ensures (fdtab == old(fdtab) || fresh(fdtab)) && fdtab.Length >= old(fdtab.Length)
    {
      ghost var s := fdtab[..];
      NotItself(p, order, fd, newfd);
      hide Valid, Occupied, Holding, Counted, FreesItself;
      r := Dup(fd, newfd);
      if fd >= 0 && fd in p.at {
        ghost var v := p.at[fd];
        assert v < |order|;
        hide Nils, Shows, Lowest;
        DupShows(s, fdtab[..], order, p, r, v, newfd == -1);
      }
    }

    method DoClose(fd: int, ghost p: Plain, ghost order: seq<Fd>) returns (r: int, fatal: bool)
      requires Agree(p, order)
      modifies this`nfd, fdtab, made
      ensures Agree(Step(Op.Close(fd), p).1, order) && r == Step(Op.Close(fd), p).0 && !fatal
    {
      ghost var s := fdtab[..];
      hide Valid, Occupied, Holding, Counted;
      r, fatal := Close(fd);
      if r == 0 {
        ShowsClear(s, order, p, fd);
      }
    }

    /** One operation. */
    method Do(op: Op, ghost p: Plain, ghost order: seq<Fd>) returns (r: int, fatal: bool, ghost order': seq<Fd>)
      requires Agree(p, order) && Allowed(op, p)
      modifies this, fdtab, made
      ensures Agree(Step(op, p).1, order') && r == Step(op, p).0 && order <= order' && !fatal
      ensures old(made) <= made && fresh(made - old(made))
      ensures (fdtab == old(fdtab) || fresh(fdtab)) && fdtab.Length >= old(fdtab.Length)
    {
      hide *;
      order', fatal := order, false;
      match op {
        case Open => r, order' := DoOpen(p, order);
        case Dup(fd, newfd) => r := DoDup(fd, newfd, p, order);
        case Close(fd) => r, fatal := DoClose(fd, p, order);
      }
    }

    /**
     * Any run of opening, duplicating and closing shows its caller what a table without counts
     * or sizes would, and is never fatal. The objects made stay counted, none is forgotten.
     */
    method Run(ops: seq<Op>, ghost p: Plain, ghost order: seq<Fd>)
      returns (seen: seq<int>, fatal: bool, ghost order': seq<Fd>)
      requires Agree(p, order) && AllowedRun(ops, p)
      modifies this, fdtab, made
      ensures Agree(RunSpec(ops, p).1, order') && seen == RunSpec(ops, p).0 && order <= order' && !fatal
      ensures old(made) <= made && fresh(made - old(made))
      ensures (fdtab == old(fdtab) || fresh(fdtab)) && fdtab.Length >= old(fdtab.Length)
    {
      hide *;
      seen, fatal, order' := [], false, order;
      var k := 0;
      ghost var t0, n0, m0, now := fdtab, fdtab.Length, made, p;
      PrefixStart(ops, p);
      while k < |ops| && !fatal
        invariant 0 <= k <= |ops| && !fatal && Agree(now, order') && Prefix(ops, p, k, seen, now) && order <= order'
        invariant (fdtab == t0 || fresh(fdtab)) && fdtab.Length >= n0
        invariant m0 <= made && fresh(made - m0)
      {
        PrefixStep(ops, p, k, seen, now);
        var r;
        r, fatal, order' := Do(ops[k], now, order');
        now := Step(ops[k], now).1;
        seen := seen + [r];
        k := k + 1;
      }
      PrefixEnd(ops, p, seen, now);
    }
  }

  datatype Op = Open | Dup(fd: int, newfd: int) | Close(fd: int)

  /** The objects that numbers lead to, objects being counted in the order they are made. */
  datatype Plain = Plain(at: map<nat, nat>, made: nat)

  /** The lowest number from i on that leads to nothing. */
  function Lowest(at: map<nat, nat>, i: nat): (r: nat)
    ensures r >= i && r !in at && forall j :: i <= j < r ==> j in at
    decreases |at|
  {
    if i !in at then i
    else
      var r := Lowest(at - {i}, i + 1);
      assert forall j {:trigger j in at} :: i < j < r ==> j in at - {i};
      r
  }

  /** What the caller gets, and the table after the operation. */
  function Step(op: Op, p: Plain): (int, Plain) {
    match op
    case Open =>
      var i := Lowest(p.at, 0);
      (i, Plain(p.at[i := p.made], p.made + 1))
    case Dup(fd, newfd) =>
      if fd < 0 || fd !in p.at then (-1, p)
      else
        var i := if newfd < 0 then Lowest(p.at, 0) else newfd;
        (i, p.(at := p.at[i := p.at[fd]]))
    case Close(fd) =>
      if fd < 0 || fd !in p.at then (-1, p) else (0, p.(at := p.at - {fd}))
  }

  /** No number is duplicated onto itself unless another leads to the same object. */
  predicate Allowed(op: Op, p: Plain) {
    op.Dup? ==>
      && op.newfd >= -1
      && (op.fd == op.newfd && op.fd >= 0 && op.fd in p.at ==>
            exists k :: k in p.at && k != op.fd && p.at[k] == p.at[op.fd])
  }

  function RunSpec(ops: seq<Op>, p: Plain): (seq<int>, Plain) {
    if ops == [] then ([], p)
    else
      var (r, p') := Step(ops[0], p);
      var (rs, p'') := RunSpec(ops[1..], p');
      ([r] + rs, p'')
  }

  predicate AllowedRun(ops: seq<Op>, p: Plain) {
    ops != [] ==> Allowed(ops[0], p) && AllowedRun(ops[1..], Step(ops[0], p).1)
  }

  /** The first i operations were run, showing `seen` and leading to `now`. */
  ghost predicate Prefix(ops: seq<Op>, p: Plain, i: nat, seen: seq<int>, now: Plain) {
    && i <= |ops| && AllowedRun(ops[i..], now)
    && RunSpec(ops, p) == (seen + RunSpec(ops[i..], now).0, RunSpec(ops[i..], now).1)
  }

  lemma PrefixStart(ops: seq<Op>, p: Plain)
    requires AllowedRun(ops, p)
    ensures Prefix(ops, p, 0, [], p)
  {
    assert ops[0..] == ops && [] + RunSpec(ops, p).0 == RunSpec(ops, p).0;
  }

  lemma PrefixStep(ops: seq<Op>, p: Plain, i: nat, seen: seq<int>, now: Plain)
    requires i < |ops| && Prefix(ops, p, i, seen, now)
    ensures Allowed(ops[i], now) && Prefix(ops, p, i + 1, seen + [Step(ops[i], now).0], Step(ops[i], now).1)
  {
    hide Allowed, Step;
    assert ops[i..][1..] == ops[i + 1..] && ops[i..][0] == ops[i];
    var r, rest := Step(ops[i], now).0, RunSpec(ops[i + 1..], Step(ops[i], now).1).0;
    assert seen + ([r] + rest) == (seen + [r]) + rest;
  }

  lemma PrefixEnd(ops: seq<Op>, p: Plain, seen: seq<int>, now: Plain)
    requires Prefix(ops, p, |ops|, seen, now)
    ensures RunSpec(ops, p) == (seen, now)
  {
    assert ops[|ops|..] == [] && seen + [] == seen;
  }

  /** The slots hold the objects that p says, and nothing else. */
  ghost predicate Shows(s: Slots, order: seq<Fd>, p: Plain) {
    && |order| == p.made && (forall i, j :: 0 <= i < j < |order| ==> order[i] != order[j])
    && (forall k :: k in p.at ==> k < |s| && p.at[k] < |order| && s[k] == order[p.at[k]])
    && (forall k :: 0 <= k < |s| && s[k] != null ==> k in p.at)
  }

  lemma ShowsGrown(s: Slots, n: nat, order: seq<Fd>, p: Plain)
    requires Shows(s, order, p)
    ensures Shows(s + Nils(n), order, p)
  {
  }

  lemma GrownFree(s: Slots, n: nat, k: nat)
    requires k < |s| + n && (k < |s| ==> s[k] == null)
    ensures (s + Nils(n))[k] == null
  {
  }

  lemma OpenShows(s: Slots, t: Slots, order: seq<Fd>, p: Plain, i: nat, f: Fd)
    requires Shows(s, order, p) && |s| <= |t| && i < |t| && t == (s + Nils(|t| - |s|))[i := f]
    requires (i < |s| ==> s[i] == null) && (forall j :: 0 <= j < i ==> t[j] != null) && f !in order
    ensures i == Lowest(p.at, 0) && Shows(t, order + [f], Plain(p.at[i := p.made], p.made + 1))
  {
    var g := s + Nils(|t| - |s|);
    hide Shows, Lowest;
    ShowsGrown(s, |t| - |s|, order, p);
    GrownFree(s, |t| - |s|, i);
    BelowFull(g, t, i, f);
    ShowsNew(g, order, p, i, f);
  }

  lemma DupShows(s: Slots, t: Slots, order: seq<Fd>, p: Plain, i: nat, v: nat, lowest: bool)
    requires Shows(s, order, p) && v < |order| && |s| <= |t| && i < |t| && t == (s + Nils(|t| - |s|))[i := order[v]]
    requires lowest ==> (i < |s| ==> s[i] == null) && forall j :: 0 <= j < i ==> t[j] != null
    ensures Shows(t, order, p.(at := p.at[i := v])) && (lowest ==> i == Lowest(p.at, 0))
  {
    var g := s + Nils(|t| - |s|);
    hide Shows, Lowest;
    ShowsGrown(s, |t| - |s|, order, p);
    ShowsSet(g, order, p, i, v);
    if lowest {
      GrownFree(s, |t| - |s|, i);
      BelowFull(g, t, i, order[v]);
      LowestIs(g, order, p, i);
    }
  }

  lemma BelowFull(s: Slots, t: Slots, k: nat, x: Fd)
    requires k < |s| && t == s[k := x] && forall j :: 0 <= j < k ==> t[j] != null
    ensures forall j :: 0 <= j < k ==> s[j] != null
  {
    assert forall j :: 0 <= j < k ==> t[j] == s[j];
  }

  lemma ShowsSet(s: Slots, order: seq<Fd>, p: Plain, k: nat, v: nat)
    requires Shows(s, order, p) && k < |s| && v < |order|
    ensures Shows(s[k := order[v]], order, p.(at := p.at[k := v]))
  {
  }

  lemma ShowsNew(s: Slots, order: seq<Fd>, p: Plain, k: nat, f: Fd)
    requires Shows(s, order, p) && k < |s| && s[k] == null && (forall j :: 0 <= j < k ==> s[j] != null) && f !in order
    ensures k == Lowest(p.at, 0) && Shows(s[k := f], order + [f], Plain(p.at[k := p.made], p.made + 1))
  {
    LowestIs(s, order, p, k);
  }

  lemma ShowsClear(s: Slots, order: seq<Fd>, p: Plain, k: nat)
    requires Shows(s, order, p) && k < |s|
    ensures Shows(s[k := null], order, p.(at := p.at - {k}))
  {
  }

  lemma LowestIs(s: Slots, order: seq<Fd>, p: Plain, k: nat)
    requires Shows(s, order, p) && k < |s| && s[k] == null && forall j :: 0 <= j < k ==> s[j] != null
    ensures k == Lowest(p.at, 0)
  {
    var r := Lowest(p.at, 0);
    assert k !in p.at;
  }

  lemma TwoHold(s: Slots, i: nat, j: nat, f: Fd)
    requires i < |s| && j < |s| && i != j && s[i] == s[j] == f
    ensures Holding(s, f) >= 2
  {
    HoldingSet(s, i, null, f);
    HoldingSet(s[i := null], j, null, f);
  }

  /** The standard descriptors: 0, 1 and 2 lead to an object each. */
  function Standard(): Plain { Plain(map[0 := 0, 1 := 1, 2 := 2], 3) }

  /**
   * Main theorem: from the start through any operations to the clean-up at the end no
   * consistency check fails, and every object made is released exactly once.
   */
  method Process(ops: seq<Op>) returns (seen: seq<int>, fatal: bool, ghost order: seq<Fd>)
    requires AllowedRun(ops, Standard())
    ensures !fatal && seen == RunSpec(ops, Standard()).0
    ensures |order| == RunSpec(ops, Standard()).1.made && fresh(set f | f in order)
    ensures forall i, j :: 0 <= i < j < |order| ==> order[i] != order[j]
    ensures forall f :: f in order ==> f.released == 1
  {
    var t := new Table();
    order := [t.fdtab[0], t.fdtab[1], t.fdtab[2]];
    t.Starts(order);
    hide RunSpec, Standard, Table.Valid, AllowedRun, Step, Occupied, Holding;
    seen, fatal, order := t.Run(ops, Standard(), order);
    if !fatal {
      fatal := t.Cleanup();
    }
  }

  lemma {:induction false} NoneOccupied(s: Slots)
    requires forall j :: 0 <= j < |s| ==> s[j] == null
    ensures Occupied(s) == 0
    decreases |s|
  {
    if s != [] {
      NoneOccupied(s[..|s| - 1]);
    }
  }

  lemma OnlyOne(s: Slots, k: nat)
    requires k < |s| && s[k] != null && forall j :: 0 <= j < |s| && j != k ==> s[j] == null
    ensures Occupied(s) == 1
  {
    OccupiedSet(s, k, null);
    NoneOccupied(s[k := null]);
  }

  lemma StdCounts(a: Fd, b: Fd, c: Fd)
    requires a != b && b != c && a != c
    ensures var s: Slots := [b, c, a] + Nils(GROWTH - 3);
            Occupied(s) == 3 && Holding(s, a) == Holding(s, b) == Holding(s, c) == 1
  {
    var r: Slots, q: Slots, s: Slots := [b], [b, c], [b, c, a];
    assert r[..0] == [] && q[..1] == r && s[..2] == q;
    assert Occupied(r) == 1 && Holding(r, b) == 1 && Holding(r, a) == 0 && Holding(r, c) == 0;
    assert Occupied(q) == 2 && Holding(q, b) == 1 && Holding(q, a) == 0 && Holding(q, c) == 1;
    CountGrown(s, GROWTH - 3, a);
    CountGrown(s, GROWTH - 3, b);
    CountGrown(s, GROWTH - 3, c);
  }
}
