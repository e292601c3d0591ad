/**
 * The memory file server: 9P requests on fids change a fixed table of entries in place.
 * Whether a request has permission is given with it.
 */
module Ramfs {
  import opened Bytes
  import opened Nametree
  import opened Plainserver

  const MAXWELEM: nat := 16

  /** A client's handle; ram is an index in the table, -1 for none. */
  class Fid {
    var busy: bool
    var open: bool
    var rclose: bool
    var id: int
    var ram: int

    constructor (i: int)
      ensures !busy && !open && !rclose && id == i && ram == -1
    {
      busy, open, rclose, id, ram := false, false, false, i, -1;
    }

    /** Handlers expect a fid in use to name an entry, and an open one to be in use. */
    ghost predicate Ok() reads this { (busy ==> 0 <= ram < NRAM) && (open ==> busy) }

    ghost function State(): FidState reads this { FidState(busy, open, rclose, ram) }

    ghost function At(): nat reads this { if ram < 0 then 0 else ram }

  }

  /** The table to start with: the root and one file. */
  function Start(i: int): Entry {
    if i == 0 then Entry(true, true, 0, 0, ".") else if i == 1 then Entry(true, false, 1, 0, "file") else FREE
  }

  class Server {
    const ram: array<Entry>
    var nram: nat
    var fids: seq<Fid>
    var path: nat
    ghost var depth: seq<nat>
    ghost var repr: set<Fid>

    ghost predicate Fids() reads this`fids, this`repr, repr {
      && (forall i :: 0 <= i < |fids| ==> fids[i] in repr)
      && (forall i, j :: 0 <= i < j < |fids| ==> fids[i] != fids[j])
      && (forall g :: g in repr ==> g in fids && g.Ok())
      && (forall g, h :: g in repr && h in repr && g.id == h.id ==> g == h)
    }

    ghost predicate Table() reads this`nram, this`depth, this`path, ram {
      ram.Length == NRAM && Tree(ram[..], nram, depth) && Paths(ram[..], path)
    }

    /** The table is a tree, and fids name entries of it. */
    ghost predicate Valid() reads this, ram, repr { Table() && Fids() }

    /** `main`: the root and one file. */
    constructor ()
      ensures Valid() && fids == [] && repr == {} && path == 0 && nram == 2
      ensures ram.Length == 2048 && fresh(ram)
      ensures ram[0] == Entry(true, true, 0, 0, ".") && ram[1] == Entry(true, false, 1, 0, "file")
      ensures forall i :: 2 <= i < 2048 ==> ram[i] == Entry(false, false, 0, 0, "")
    {
      ram := new Entry[NRAM](Start);
      nram, fids, path, repr := 2, [], 0, {};
      depth := seq(NRAM, i => if i == 0 then 0 else 1);
    }

    // ---- fids ----

    /** What the fids hold, in their order. */
    static ghost function Slots(fs: seq<Fid>): seq<Slot>
      reads fs
    {
      if fs == [] then [] else [Slot(fs[0].id, fs[0].State())] + Slots(fs[1..])
    }

    static lemma {:induction false} SlotsAre(fs: seq<Fid>)
      ensures |Slots(fs)| == |fs| && forall j :: 0 <= j < |fs| ==> Slots(fs)[j] == Slot(fs[j].id, fs[j].State())
    {
      if fs != [] {
        SlotsAre(fs[1..]);
      }
    }

    /** The server as a client sees it. */
    ghost function Abs(): Plain reads this, ram, repr, fids { Plain(ram[..], Slots(fids), path) }

    /** What the fids other than f hold. */
    static ghost function Rest(fs: seq<Fid>, f: Fid): seq<Slot>
      reads set g | g in fs && g != f
    {
      if fs == [] then []
      else
        (if fs[0] == f then [Slot(0, FidState(false, false, false, -1))] else [Slot(fs[0].id, fs[0].State())])
        + Rest(fs[1..], f)
    }

    static lemma {:induction false} RestAre(fs: seq<Fid>, f: Fid)
      ensures |Rest(fs, f)| == |fs|
      ensures forall j :: 0 <= j < |fs| && fs[j] != f ==> Rest(fs, f)[j] == Slot(fs[j].id, fs[j].State())
    {
      if fs != [] {
        RestAre(fs[1..], f);
      }
    }

    lemma RestIs(f: Fid, i: nat)
      requires Fids() && i < |fids| && fids[i] == f
      ensures |Slots(fids)| == |Rest(fids, f)| == |fids| && Slots(fids) == Rest(fids, f)[i := Slot(f.id, f.State())]
      ensures Slots(fids)[i] == Slot(f.id, f.State())
    {
      SlotsAre(fids);
      RestAre(fids, f);
    }

    /** Only the i-th fid is not as it was. */
    lemma SlotsSet(i: nat, before: seq<Slot>)
      requires Fids() && i < |fids| == |before| && before[i].id == fids[i].id
      requires |Rest(fids, fids[i])| == |fids| && Rest(fids, fids[i])[i := before[i]] == before
      ensures Slots(fids) == before[i := before[i].(fid := fids[i].State())]
    {
      RestIs(fids[i], i);
    }

    lemma Distinct(i: nat)
      requires Fids() && i < |fids|
      ensures forall j :: 0 <= j < |fids| && j != i ==> fids[j] != fids[i]
      ensures forall j :: 0 <= j < |fids| ==> fids[j] in repr
    {
    }

    lemma AbsSound()
      requires Valid()
      ensures Sound(Abs())
    {
      SlotsAre(fids);
      forall j | 0 <= j < |fids| ensures Fine(ram[..], Slots(fids)[j].fid) {
        assert fids[j].Ok();
      }
    }

    /** The scan of `newfid`. */
    method Scan(id: int) returns (hit: Fid?, idle: Fid?)
      ensures var i, k := Numbered(Slots(fids), id), FirstIdle(Slots(fids));
              && hit == (if i < |fids| then fids[i] else null)
              && (hit == null ==> idle == if k < |fids| then fids[k] else null)
      ensures hit == null ==> forall j :: 0 <= j < |fids| ==> fids[j].id != id
      ensures idle != null ==> !idle.busy
    {
      SlotsAre(fids);
      var ff: int := -1;
      var i := 0;
      while i < |fids|
        invariant 0 <= i <= |fids|
        invariant forall j :: 0 <= j < i ==> fids[j].id != id
        invariant -1 <= ff < i && (ff >= 0 ==> !fids[ff].busy)
        invariant forall j :: 0 <= j < (if ff >= 0 then ff else i) ==> fids[j].busy
      {
        if fids[i].id == id {
          NumberedIs(Slots(fids), id, i);
          return fids[i], null;
        } else if ff == -1 && !fids[i].busy {
          ff := i;
        }
        i := i + 1;
      }
      NumberedIs(Slots(fids), id, |fids|);
      FirstIdleIs(Slots(fids), if ff >= 0 then ff else |fids|);
      hit, idle := null, if ff >= 0 then fids[ff] else null;
    }

    /** `newfid`: the fid of that number, else an idle one renumbered, else a new one at the front. */
    method NewFid(id: int) returns (f: Fid, ghost i: nat)
      requires Valid()
      modifies this`fids, this`repr, repr`id
      ensures Valid() && f.id == id && repr == old(repr) + {f} && (f in old(repr) || fresh(f))
      ensures forall g :: g in old(repr) && g != f ==> g.id == old(g.id)
      ensures if f in old(repr) then old(f.busy) ==> old(f.id) == id else !f.busy && !f.open
      ensures i < |fids| && fids[i] == f && (Slots(fids), i) == Taken(old(Slots(fids)), id)
    {
      var hit, idle := Scan(id);
      Listed(id, hit, idle);
      hide *;
      if hit != null {
        f, i := hit, Numbered(Slots(fids), id);
      } else if idle != null {
        f, i := idle, FirstIdle(Slots(fids));
        Renumber(f, id, i);
      } else {
        i := 0;
        f := AddFid(id);
      }
    }

    lemma Listed(id: int, hit: Fid?, idle: Fid?)
      requires Valid() && hit == (var i := Numbered(Slots(fids), id); if i < |fids| then fids[i] else null)
      requires hit == null ==> idle == (var k := FirstIdle(Slots(fids)); if k < |fids| then fids[k] else null)
      ensures |Slots(fids)| == |fids|
      ensures hit != null ==>
                var i := Numbered(Slots(fids), id);
                hit in repr && hit.id == id && i < |fids| && fids[i] == hit && repr + {hit} == repr
                && (Slots(fids), i) == Taken(Slots(fids), id)
      ensures hit == null ==> (forall g :: g in repr ==> g.id != id) && Numbered(Slots(fids), id) == |fids|
      ensures hit == null && idle != null ==>
                var k := FirstIdle(Slots(fids));
                idle in repr && !idle.busy && !idle.open && k < |fids| && fids[k] == idle && repr + {idle} == repr
      ensures hit == null && idle == null ==> FirstIdle(Slots(fids)) == |fids|
    {
      hide Table;
      SlotsAre(fids);
      forall g | g in repr && g.id == id ensures hit == g {
        var i :| 0 <= i < |fids| && fids[i] == g;
        forall j | 0 <= j < i ensures Slots(fids)[j].id != id {
          assert fids[j] in repr && fids[j] != g;
        }
        NumberedIs(Slots(fids), id, i);
      }
    }

    method Renumber(f: Fid, id: int, ghost k: nat)
      requires Valid() && k < |fids| && fids[k] == f && forall g :: g in repr ==> g.id != id
      requires Numbered(Slots(fids), id) == |fids| && FirstIdle(Slots(fids)) == k
      modifies f`id
      ensures Valid() && f.id == id && (Slots(fids), k) == Taken(old(Slots(fids)), id)
    {
      hide Table;
      ghost var ss := Slots(fids);
      RestIs(f, k);
      f.id := id;
      RestIs(f, k);
      assert Slots(fids) == ss[k := ss[k].(id := id)];
    }

    method AddFid(id: int) returns (f: Fid)
      requires Valid() && forall g :: g in repr ==> g.id != id
      requires Numbered(Slots(fids), id) == |fids| && FirstIdle(Slots(fids)) == |fids|
      modifies this`fids, this`repr
      ensures Valid() && fresh(f) && f.id == id && repr == old(repr) + {f} && !f.busy && !f.open
      ensures |fids| > 0 && fids[0] == f && (Slots(fids), 0) == Taken(old(Slots(fids)), id)
    {
      SlotsAre(fids);
      hide Slots, Table, Numbered, FirstIdle;
      f := new Fid(id);
      ghost var fs := fids;
      Front(f);
      hide Fids;
      SlotsFront(f, fs);
    }

    static lemma SlotsFront(f: Fid, fs: seq<Fid>)
      ensures Slots([f] + fs) == [Slot(f.id, f.State())] + Slots(fs)
    {
      assert ([f] + fs)[1..] == fs;
    }

    method Front(f: Fid)
      requires Fids() && f !in repr && f.Ok() && forall g :: g in repr ==> g.id != f.id
      modifies this`fids, this`repr
      ensures Fids() && fids == [f] + old(fids) && repr == old(repr) + {f}
    {
      fids := [f] + fids;
      repr := repr + {f};
      assert forall i :: 1 <= i < |fids| ==> fids[i] == old(fids)[i - 1];
      assert fids[0] == f;
    }

    // ---- removing ----

    /** `emptydir`. */
    method EmptyDir(d: nat) returns (e: bool)
      requires Valid() && d < NRAM
      ensures e <==> Empty(ram[..], d)
    {
      var i := 0;
      while i < nram
        invariant 0 <= i <= nram
        invariant forall j :: 0 <= j < i ==> !InDir(ram[..], j, d)
      {
        if ram[i].busy && ram[i].parent == d {
          assert InDir(ram[..], i, d);
          return false;
        }
        i := i + 1;
      }
      e := true;
    }

    /** `realremove`: only a directory that holds something, such as the root, stays. */
    method RealRemove(r: nat) returns (e: Option<Error>)
      requires Valid() && r < NRAM
      modifies ram
      ensures Valid()
      ensures e == if old(ram[r].dir && !Empty(ram[..], r)) then Some(Enotempty) else None
      ensures ram[..] == if e == None then old(ram[..])[r := FREE] else old(ram[..])
      ensures r == 0 ==> e != None
    {
      if ram[r].dir {
        var empty := EmptyDir(r);
        if !empty {
          return Some(Enotempty);
        }
      }
      Uprooted(ram[..], nram, depth, r);
      PathsUprooted(ram[..], path, r);
      hide Tree, Paths, Empty, Fids;
      ram[r] := FREE;
      assert ram[..] == old(ram[..])[r := FREE];
      e := None;
    }

    /** The fid is idle. */
    method Release(f: Fid)
      requires Fids() && f in repr
      modifies f`busy, f`open, f`ram
      ensures Fids() && !f.busy && !f.open && f.ram == -1
    {
      f.busy, f.open, f.ram := false, false, -1;
    }

    /** `rclunk`: closes the fid, and removes what it names now if it was opened to be removed on close. */
    method Clunk(f: Fid) returns (e: Option<Error>)
      requires Valid() && f in repr && (f.busy || !f.rclose)
      modifies ram, f
      ensures Valid() && !f.busy && !f.open && f.ram == -1 && f.id == old(f.id) && f.rclose == old(f.rclose)
      ensures e == if old(f.rclose && ram[f.ram].dir && !Empty(ram[..], f.ram)) then Some(Enotempty) else None
      ensures ram[..] == if old(f.rclose) && e == None then old(ram[..])[old(f.ram) := FREE] else old(ram[..])
    {
      e := None;
      assert f.Ok();
      hide Table, Fids, Empty;
      if f.rclose {
        e := RealRemove(f.ram);
      }
      Release(f);
    }

    /** `rremove`: the fid goes whatever happens to the file. */
    method Remove(f: Fid, may: nat -> bool) returns (e: Option<Error>)
      requires Valid() && f in repr && f.busy
      modifies ram, f
      ensures Valid() && !f.busy && !f.open && f.ram == -1 && f.id == old(f.id) && f.rclose == old(f.rclose)
      ensures e == if old(ram[f.ram].path == 0 || !may(ram[f.ram].parent)) then Some(Eperm)
                   else if old(ram[f.ram].dir && !Empty(ram[..], f.ram)) then Some(Enotempty) else None
      ensures ram[..] == if e == None then old(ram[..])[old(f.ram) := FREE] else old(ram[..])
    {
      assert f.Ok();
      var r := f.ram;
      Release(f);
      if ram[r].path == 0 || !may(ram[r].parent) {
        return Some(Eperm);
      }
      e := RealRemove(r);
    }

    // ---- creating and renaming ----

    /** The scan for a name in a directory, which stops at nram. */
    method Find(d: nat, name: string) returns (c: Option<nat>)
      requires Valid() && d < NRAM
      ensures c == Lookup(ram[..], d, name, 0) && IsChild(ram[..], d, name, c)
    {
      LookupFinds(ram[..], d, name, 0);
      var i := 0;
      while i < nram
        invariant 0 <= i <= nram
        invariant Lookup(ram[..], d, name, 0) == Lookup(ram[..], d, name, i)
      {
        if ram[i].busy && ram[i].parent == d && ram[i].name == name {
          return Some(i);
        }
        i := i + 1;
      }
      LookupFinds(ram[..], d, name, i);
      c := None;
    }

    /** The lowest free place. */
    method FreePlace() returns (r: Option<nat>)
      requires Valid()
      ensures match r
              case Some(i) => i < NRAM && !ram[i].busy && forall j :: 0 <= j < i ==> ram[j].busy
              case None => forall j :: 0 <= j < NRAM ==> ram[j].busy
    {
      var i := 0;
      while ram[i].busy
        invariant 0 <= i < NRAM && forall j :: 0 <= j < i ==> ram[j].busy
        decreases NRAM - i
      {
        if i == NRAM - 1 {
          return None;
        }
        i := i + 1;
      }
      r := Some(i);
    }

    /** The checks of `rcreate`, and the place found. */
    method CreatePlace(d: nat, name: string, may: bool) returns (e: Option<Error>, r: nat)
      requires Valid() && d < NRAM
      ensures e == CreateError(ram[..], d, name, may)
      ensures e == None ==> r < NRAM && !ram[r].busy && forall j :: 0 <= j < r ==> ram[j].busy
    {
      r := 0;
      if !ram[d].busy {
        return Some(Enotexist), 0;
      }
      if !ram[d].dir {
        return Some(Enotdir), 0;
      }
      if !may {
        return Some(Eperm), 0;
      }
      if name == "." || name == ".." {
        return Some(Ename), 0;
      }
      var c := Find(d, name);
      if c != None {
        ChildOrNot(ram[..], d, name, c);
        return Some(Einuse), 0;
      }
      var place := FreePlace();
      hide Table, Fids, IsChild;
      if place == None {
        return Some(Efull), 0;
      }
      e, r := None, place.value;
    }

    lemma ChildOrNot(t: Table, d: nat, name: string, c: Option<nat>)
      requires IsChild(t, d, name, c) && c != None
      ensures !IsChild(t, d, name, None)
    {
    }

    /** `rcreate`: on success one entry is new, in the lowest free place, and the fid is open on it. */
    method Create(f: Fid, name: string, isDir: bool, orclose: bool, may: bool) returns (e: Option<Error>)
      requires Valid() && f in repr
      modifies this`nram, this`path, this`depth, ram, f
      ensures Valid() && f.busy == old(f.busy) && f.id == old(f.id)
      ensures path == if e == None then old(path) + 1 else old(path)
      ensures e == if !f.busy then Some(Ebadfid) else if old(f.open) then Some(Eisopen)
                   else old(CreateError(ram[..], f.At(), name, may))
      ensures e != None ==> ram[..] == old(ram[..]) && (f.open, f.rclose, f.ram) == old((f.open, f.rclose, f.ram))
      ensures e == None ==>
                && 0 <= f.ram < NRAM && !old(ram[..])[f.ram].busy
                && (forall j :: 0 <= j < f.ram ==> old(ram[..])[j].busy)
                && old(f.ram >= 0)
                && ram[..] == old(ram[..])[f.ram := Entry(true, isDir, old(path) + 1, old(f.ram), name)]
                && f.open && f.rclose == (orclose || old(f.rclose))
    {
      if !f.busy {
        return Some(Ebadfid);
      }
      if f.open {
        return Some(Eisopen);
      }
      assert f.Ok();
      var d, r := f.ram, 0;
      e, r := CreatePlace(d, name, may);
      if e == None {
        hide Table, Fids, IsChild;
        PlantAndOpen(f, r, Entry(true, isDir, path + 1, d, name), orclose);
      }
    }

    method PlantAndOpen(f: Fid, r: nat, e: Entry, orclose: bool)
      requires Valid() && f in repr && f.busy && r < NRAM && !ram[r].busy
      requires e.busy && e.parent < NRAM && ram[e.parent].busy && ram[e.parent].dir
      requires IsChild(ram[..], e.parent, e.name, None) && e.path == path + 1
      modifies this`nram, this`path, this`depth, ram, f`ram, f`open, f`rclose
      ensures Valid() && ram[..] == old(ram[..])[r := e] && path == e.path
      ensures f.ram == r && f.open && f.rclose == (orclose || old(f.rclose))
    {
      hide Table, Fids, IsChild;
      Plant(r, e);
      OpenOn(f, r, orclose);
    }

    method OpenOn(f: Fid, r: nat, orclose: bool)
      requires Fids() && f in repr && f.busy && r < NRAM
      modifies f`ram, f`open, f`rclose
      ensures Fids() && f.ram == r && f.open && f.rclose == (orclose || old(f.rclose))
    {
      f.ram := r;
      f.open := true;
      if orclose {
        f.rclose := true;
      }
    }

    method Plant(r: nat, e: Entry)
      requires Valid() && r < NRAM && !ram[r].busy && e.busy && e.parent < NRAM && ram[e.parent].busy
      requires ram[e.parent].dir
      requires IsChild(ram[..], e.parent, e.name, None) && e.path == path + 1
      modifies this`nram, this`path, this`depth, ram
      ensures Valid() && ram[..] == old(ram[..])[r := e] && path == e.path
    {
      hide Table, Fids, Tree, Paths, IsChild;
      ghost var d := Planting(r, e);
      ghost var t := ram[..][r := e];
      path := path + 1;
      depth := d;
      ram[r] := e;
      if r >= nram {
        nram := r + 1;
      }
      assert ram[..] == t;
      TableIs(t, nram);
    }

    lemma Planting(r: nat, e: Entry) returns (d: seq<nat>)
      requires Valid() && r < NRAM && !ram[r].busy && e.busy && e.parent < NRAM && ram[e.parent].busy
      requires ram[e.parent].dir && IsChild(ram[..], e.parent, e.name, None) && e.path == path + 1
      ensures r < ram.Length == NRAM && Fids()
      ensures Tree(ram[..][r := e], if r >= nram then r + 1 else nram, d) && Paths(ram[..][r := e], path + 1)
    {
      hide Fids, IsChild;
      d := depth[r := depth[e.parent] + 1];
      Planted(ram[..], nram, depth, r, e);
      PathsPlanted(ram[..], path, r, e);
      hide Tree, Paths;
    }

    lemma TableIs(t: seq<Entry>, n: nat)
      requires ram[..] == t && n == nram && ram.Length == 2048 && Tree(t, n, depth) && Paths(t, path)
      ensures Table()
    {
    }

    /** `rwstat`: the new name must be new in its directory; "" changes no name. The other checks are given. */
    method Wstat(f: Fid, name: string, lengthOk: bool, may: bool, modeOk: bool, groupOk: bool)
      returns (e: Option<Error>)
      requires Valid() && f in repr
      modifies ram
      ensures Valid()
      ensures e == if !f.busy then Some(Ebadfid)
                   else if !old(ram[f.ram].busy) then Some(Enotexist)
                   else if !lengthOk then Some(Eperm)
                   else if name != "" && name != old(ram[f.ram].name) && !may then Some(Eperm)
                   else if name != "" && name != old(ram[f.ram].name)
                           && old(!IsChild(ram[..], ram[f.ram].parent, name, None)) then Some(Eexist)
                   else if !modeOk || !groupOk then Some(Enotowner) else None
      ensures ram[..] == if e == None && name != "" then old(ram[..])[f.ram := old(ram[f.ram]).(name := name)]
                         else old(ram[..])
    {
      assert f.Ok();
      if !f.busy {
        return Some(Ebadfid);
      }
      var r := f.ram;
      if !ram[r].busy {
        return Some(Enotexist);
      }
      if !lengthOk {
        return Some(Eperm);
      }
      if name != "" && name != ram[r].name {
        if !may {
          return Some(Eperm);
        }
        var c := Find(ram[r].parent, name);
        if c != None {
          ChildOrNot(ram[..], ram[r].parent, name, c);
          return Some(Eexist);
        }
      }
      if !modeOk || !groupOk {
        return Some(Enotowner);
      }
      if name != "" {
        Rename(r, name);
      }
      e := None;
    }

    method Rename(r: nat, name: string)
      requires Valid() && r < NRAM && ram[r].busy
      requires (name == ram[r].name || IsChild(ram[..], ram[r].parent, name, None))
      modifies ram
      ensures Valid() && ram[..] == old(ram[..])[r := old(ram[r]).(name := name)]
    {
      Renamed(ram[..], nram, depth, r, name);
      PathsRenamed(ram[..], path, r, name);
      hide Tree, Paths, IsChild, Fids;
      ram[r] := ram[r].(name := name);
      assert ram[..] == old(ram[..])[r := old(ram[r]).(name := name)];
    }

    // ---- attaching, walking, opening ----

    /** `rattach`: an idle fid comes to name the root. */
    method Attach(f: Fid) returns (e: Option<Error>)
      requires Valid() && f in repr
      modifies f`busy, f`rclose, f`ram
      ensures Valid()
      ensures if old(f.busy) then e == Some(Ebadfid) && (f.busy, f.rclose, f.ram) == old((f.busy, f.rclose, f.ram))
              else e == None && f.busy && !f.rclose && f.ram == 0
    {
      if f.busy {
        return Some(Ebadfid);
      }
      hide Table;
      f.busy, f.rclose, f.ram := true, false, 0;
      e := None;
    }

    /** One name of a walk. */
    method Hop(cur: nat, name: string, may: nat -> bool) returns (h: Nametree.Hop)
      requires Valid() && cur < NRAM
      ensures h == Follow(ram[..], cur, name, may) && (h.To? ==> h.i < NRAM && ram[h.i].busy)
    {
      FollowLive(ram[..], nram, depth, cur, name, may);
      if !ram[cur].dir {
        return Stop(Enotdir);
      }
      if !ram[cur].busy {
        return Stop(Enotexist);
      }
      if name == "." {
        return To(cur);
      }
      if !may(ram[cur].parent) {
        return Stop(Eperm);
      }
      if name == ".." {
        return To(ram[cur].parent);
      }
      var c := Find(cur, name);
      h := if c == None then Nowhere else To(c.value);
    }

    /** The loop of `rwalk`. */
    method WalkNames(start: nat, names: seq<string>, may: nat -> bool)
      returns (cur: nat, steps: seq<nat>, err: Option<Error>)
      requires Valid() && start < NRAM
      ensures (steps, err) == Trail(ram[..], start, names, may)
      ensures cur == if steps == [] then start else steps[|steps| - 1]
      ensures cur < NRAM && |steps| <= |names|
    {
      cur, steps, err := start, [], None;
      var i := 0;
      ghost var t := ram[..];
      OnwardStart(t, start, names, may);
      hide Trail, Follow, Table, Fids;
      while i < |names|
        invariant 0 <= i <= |names| && cur < NRAM && |steps| == i && err == None
        invariant cur == if steps == [] then start else steps[|steps| - 1]
        invariant Onward(t, start, names, may, i, steps, cur)
      {
        TrailStep(t, start, names, may, i, steps, cur);
        var h := Hop(cur, names[i], may);
        hide Onward;
        match h {
          case To(c) =>
            cur := c;
            steps := steps + [cur];
            i := i + 1;
          case Stop(e) =>
            err := Some(e);
            return;
          case Nowhere =>
            return;
        }
      }
      TrailEnd(start, names, may, steps, cur);
    }

    lemma OnwardStart(t: Table, start: nat, names: seq<string>, may: nat -> bool)
      requires start < |t| && forall i :: 0 <= i < |t| ==> t[i].parent < |t|
      ensures Onward(t, start, names, may, 0, [], start)
    {
      assert names[0..] == names;
      var steps := Trail(t, start, names, may).0;
      assert [] + steps == steps;
    }

    lemma TrailEnd(start: nat, names: seq<string>, may: nat -> bool, steps: seq<nat>, cur: nat)
      requires Valid() && start < NRAM && cur < NRAM && Onward(ram[..], start, names, may, |names|, steps, cur)
      ensures Trail(ram[..], start, names, may) == (steps, None)
    {
      assert names[|names|..] == [] && steps + [] == steps;
    }

    /** `xclone`: the fid of the new number, in use or not, names what f names. */
    method Clone(f: Fid, newfid: int) returns (nf: Fid, ghost j: nat)
      requires Valid() && f in repr && f.busy && newfid != f.id
      modifies this`fids, this`repr, repr
      ensures Valid() && f in repr && nf in repr && nf != f && nf.id == newfid
      ensures f.State() == old(f.State()) && f.id == old(f.id)
      ensures nf.busy && !nf.open && !nf.rclose && nf.ram == f.ram
      ensures repr == old(repr) + {nf} && (nf in old(repr) || fresh(nf)) && j < |fids| && fids[j] == nf
      ensures j == Taken(old(Slots(fids)), newfid).1 && Slots(fids) == Moved(old(Slots(fids)), newfid, f.ram)
      ensures |Slots(fids)| == |fids|
    {
      FidOk(f);
      nf, j := NewFid(newfid);
      Distinct(j);
      hide Table, Fids;
      RestIs(nf, j);
      ghost var before := Slots(fids);
      Occupy(nf, f.ram);
      SlotsSet(j, before);
    }

    lemma FidOk(f: Fid)
      requires Fids() && f in repr
      ensures f.Ok()
    {
    }

    /** The fid comes to name an entry. */
    method Occupy(f: Fid, r: int)
      requires Fids() && f in repr && 0 <= r < NRAM
      modifies f`busy, f`open, f`rclose, f`ram
      ensures Fids() && f.busy && !f.open && !f.rclose && f.ram == r
    {
      f.busy, f.open, f.rclose, f.ram := true, false, false, r;
    }

    /** The walk proper, of a fid that stays or of one just cloned. */
    method WalkFid(g: Fid, cloned: bool, names: seq<string>, may: nat -> bool)
      returns (e: Option<Error>, wqid: seq<nat>, crash: bool)
      requires Valid() && g in repr && g.busy && (cloned ==> !g.open)
      modifies g`busy, g`ram
      ensures Valid() && Parented(ram[..]) && 0 <= old(g.ram) < |ram[..]|
      ensures var (steps, err) := WalkTrail(ram[..], old(g.ram), names, may);
              && wqid == steps && |steps| <= |names|
              && e == (if err == None && names != [] && steps == [] then Some(Enotexist) else err)
              && (crash <==> cloned && (|steps| < |names| || e != None)) && (g.busy <==> !crash)
              && (!crash ==> g.ram == Destination(steps, names, old(g.ram)))
    {
      FidOk(g);
      Parents();
      Entries();
      hide Fids;
      var cur, steps, err := WalkNames(g.ram, if |names| > MAXWELEM then names[..MAXWELEM] else names, may);
      assert WalkTrail(ram[..], g.ram, names, may) == (steps, err) && |steps| <= |names|;
      assert steps != [] ==> cur == steps[|steps| - 1];
      hide Table, Trail, WalkTrail;
      e, wqid := err, steps;
      if names != [] && steps == [] && err == None {
        e := Some(Enotexist);
      }
      crash := cloned && (e != None || |wqid| < |names|);
      if crash {
        Point(g, false, -1);
      }
      if |wqid| == |names| {
        Point(g, g.busy, cur);
      }
    }

    method Point(f: Fid, busy: bool, r: int)
      requires Fids() && f in repr && if busy then 0 <= r < NRAM else !f.open
      modifies f`busy, f`ram
      ensures Fids() && f.busy == busy && f.ram == r
    {
      f.busy, f.ram := busy, r;
    }

    /** A walk to another fid. */
    method WalkClone(f: Fid, newfid: int, names: seq<string>, may: nat -> bool)
      returns (e: Option<Error>, wqid: seq<nat>, g: Fid, crash: bool)
      requires Valid() && f in repr && f.busy && newfid != f.id
      modifies this`fids, this`repr, repr
      ensures Valid() && f in repr && old(repr) <= repr && fresh(repr - old(repr))
      ensures Parented(ram[..]) && 0 <= old(f.ram) < |ram[..]|
      ensures g != f && f.State() == old(f.State()) && f.id == old(f.id)
      ensures var (steps, err) := WalkTrail(ram[..], old(f.ram), names, may);
              && wqid == steps && (crash <==> |steps| < |names| || err != None) && (!crash ==> e == None)
              && (!crash ==> Slots(fids) == Moved(old(Slots(fids)), newfid, Destination(steps, names, old(f.ram))))
    {
      FidOk(f);
      Entries();
      Parents();
      hide *;
      ghost var ss, j, r := Slots(fids), 0, f.ram;
      g, j := Clone(f, newfid);
      FidIs(f);
      e, wqid, crash := WalkOther(f, g, j, names, may);
      MovedOn(ss, newfid, r, g.ram);
      FidIs(g);
    }

    /** The walk of the fid just cloned. */
    method WalkOther(f: Fid, g: Fid, ghost j: nat, names: seq<string>, may: nat -> bool)
      returns (e: Option<Error>, wqid: seq<nat>, crash: bool)
      requires Valid() && j < |fids| == |Slots(fids)| && fids[j] == g
      requires g.busy && !g.open && !g.rclose && f != g && f in repr
      modifies g`busy, g`ram
      ensures Valid() && f in repr && g in repr && Parented(ram[..]) && 0 <= old(g.ram) < |ram[..]|
      ensures f.State() == old(f.State())
      ensures var (steps, err) := WalkTrail(ram[..], old(g.ram), names, may);
              && wqid == steps && (crash <==> |steps| < |names| || err != None) && (!crash ==> e == None)
              && (!crash ==> g.ram == Destination(steps, names, old(g.ram)))
      ensures !crash ==> Slots(fids) == old(Slots(fids))[j := Slot(g.id, FidState(true, false, false, g.ram))]
    {
      Distinct(j);
      RestIs(g, j);
      FidOk(g);
      ghost var before := Slots(fids);
      hide Table, Fids, WalkTrail, Slots, Rest;
      e, wqid, crash := WalkFid(g, true, names, may);
      SlotsSet(j, before);
    }

    /**
     * `rwalk`. A fid moves only by a complete walk. A walk to another fid that is not complete
     * leaves that fid idle, and then the closing assertion ends the run (`crash`).
     */
    method Walk(f: Fid, newfid: int, names: seq<string>, may: nat -> bool)
      returns (e: Option<Error>, wqid: seq<nat>, g: Fid, crash: bool)
      requires Valid() && f in repr
      modifies this`fids, this`repr, repr
      ensures Valid() && f in repr && old(repr) <= repr && fresh(repr - old(repr))
      ensures Parented(ram[..]) && (old(f.busy) ==> 0 <= old(f.ram) < |ram[..]|)
      ensures old(f.busy) && (newfid == old(f.id) || (!old(f.open) && ram[old(f.ram)].busy)) ==>
                var (steps, err) := WalkTrail(ram[..], old(f.ram), names, may);
                && wqid == steps && (g == f <==> newfid == old(f.id))
                && (crash <==> g != f && (|steps| < |names| || err != None))
                && (!crash ==> e == if err == None && names != [] && steps == [] then Some(Enotexist) else err)
                && (g == f ==> f.State() == old(f.State()).(ram := Destination(steps, names, old(f.ram))))
                && (g != f && !crash ==>
                      Slots(fids) == Moved(old(Slots(fids)), newfid, Destination(steps, names, old(f.ram))))
      ensures !old(f.busy) || (newfid != old(f.id) && (old(f.open) || !ram[old(f.ram)].busy)) ==>
                g == f && !crash && wqid == [] && f.State() == old(f.State())
                && e == Some(if !f.busy then Ebadfid else if f.open then Eisopen else Enotexist)
      ensures g == f ==> fids == old(fids) && f.id == old(f.id) && Rest(fids, f) == old(Rest(fids, f))
    {
      wqid, g, crash := [], f, false;
      Parents();
      Entries();
      if !f.busy {
        return Some(Ebadfid), [], f, false;
      }
      FidOk(f);
      hide Table, Fids, Trail, WalkTrail, Moved, Slots, Rest;
      if newfid == f.id {
        e, wqid, crash := WalkFid(f, false, names, may);
        return;
      }
      if f.open {
        return Some(Eisopen), [], f, false;
      }
      if !ram[f.ram].busy {
        return Some(Enotexist), [], f, false;
      }
      e, wqid, g, crash := WalkClone(f, newfid, names, may);
    }

    /**
     * `ropen`. A directory does not become open, and a request to remove on close stays in
     * force when the rest of the request is then refused.
     */
    method Open(f: Fid, reading: bool, orclose: bool, excl: bool, mayParent: bool, may: bool) returns (e: Option<Error>)
      requires Valid() && f in repr
      modifies f`open, f`rclose
      ensures Valid()
      ensures e == if !f.busy then Some(Ebadfid) else if old(f.open) then Some(Eisopen)
                   else if !ram[f.ram].busy then Some(Enotexist) else if excl then Some(Excl)
                   else if ram[f.ram].dir then if reading then None else Some(Eperm)
                   else if orclose && (f.ram == 0 || !mayParent) then Some(Eperm)
                   else if !may then Some(Eperm) else None
      ensures f.open == (old(f.open) || (e == None && !ram[f.ram].dir))
      ensures f.rclose == (old(f.rclose) || (f.busy && !old(f.open) && ram[f.ram].busy && !excl && !ram[f.ram].dir
                                             && orclose && mayParent))
    {
      if !f.busy {
        return Some(Ebadfid);
      }
      if f.open {
        return Some(Eisopen);
      }
      FidOk(f);
      Entries();
      if !ram[f.ram].busy {
        return Some(Enotexist);
      }
      OnlyRoot(f.ram);
      hide Table, Fids;
      if excl {
        return Some(Excl);
      }
      if ram[f.ram].dir {
        return if reading then None else Some(Eperm);
      }
      if orclose {
        if ram[f.ram].path == 0 || !mayParent {
          return Some(Eperm);
        }
        MarkFid(f, false, true);
      }
      if !may {
        return Some(Eperm);
      }
      MarkFid(f, true, f.rclose);
      e := None;
    }

    lemma Entries()
      requires Valid()
      ensures ram.Length == NRAM
    {
    }

    lemma OnlyRoot(r: nat)
      requires Valid() && r < NRAM && ram[r].busy
      ensures ram[r].path == 0 <==> r == 0
    {
      hide Fids;
    }

    method MarkFid(f: Fid, open: bool, rclose: bool)
      requires Fids() && f in repr && f.busy
      modifies f`open, f`rclose
      ensures Fids() && f.open == open && f.rclose == rclose
    {
      f.open, f.rclose := open, rclose;
    }

    /** `rversion`: every fid is closed, which removes what was to be removed on close, in the order of the fids. */
    method Version(ours: bool) returns (e: Option<Error>)
      requires Valid()
      modifies ram, repr
      ensures Valid() && e == if ours then None else Some(Eversion)
      ensures ram[..] == AllUprooted(old(ram[..]), Doomed(Marks(old(Slots(fids)))))
      ensures Slots(fids) == AllClosed(old(Slots(fids)))
    {
      ghost var t, ss := ram[..], Slots(fids);
      ClosingStart(t, ss);
      hide Table, Fids, Closing;
      var i := 0;
      while i < |fids|
        invariant 0 <= i <= |fids| && Valid() && Closing(t, ss, i)
      {
        CloseNext(i, t, ss);
        i := i + 1;
      }
      ClosingEnd(t, ss);
      e := if ours then None else Some(Eversion);
    }

    /** The fids before the i-th are closed. */
    ghost predicate Closing(t: Nametree.Table, ss: seq<Slot>, i: nat)
      reads this`fids, fids, ram
    {
      && i <= |fids| == |ss|
      && (forall j :: 0 <= j < |fids| ==>
            Slot(fids[j].id, fids[j].State()) == if j < i then ss[j].(fid := Closed(ss[j].fid)) else ss[j])
      && AllUprooted(t, Doomed(Marks(ss))) == AllUprooted(ram[..], Doomed(Marks(ss)[i..]))
    }

    lemma ClosingStart(t: Nametree.Table, ss: seq<Slot>)
      requires t == ram[..] && ss == Slots(fids)
      ensures Closing(t, ss, 0)
    {
      SlotsAre(fids);
      assert Marks(ss)[0..] == Marks(ss);
    }

    lemma ClosingEnd(t: Nametree.Table, ss: seq<Slot>)
      requires Closing(t, ss, |fids|)
      ensures Slots(fids) == AllClosed(ss) && ram[..] == AllUprooted(t, Doomed(Marks(ss)))
    {
      SlotsAre(fids);
      assert Marks(ss)[|fids|..] == [];
    }

    method CloseNext(i: nat, ghost t: Nametree.Table, ghost ss: seq<Slot>)
      requires Valid() && i < |fids| && Closing(t, ss, i)
      modifies ram, repr
      ensures Valid() && Closing(t, ss, i + 1)
    {
      DoomedNext(ram[..], Marks(ss), i);
      hide Table, Fids, AllUprooted, Doomed;
      if fids[i].busy {
        CloseAt(i);
      }
    }

    method CloseAt(i: nat)
      requires Valid() && i < |fids| && fids[i].busy
      modifies ram, fids[i]
      ensures Valid() && fids[i].id == old(fids[i].id) && fids[i].State() == Closed(old(fids[i].State()))
      ensures forall j :: 0 <= j < |fids| && j != i ==>
                fids[j].id == old(fids[j].id) && fids[j].State() == old(fids[j].State())
      ensures ram[..] == match Mark(old(fids[i].State()))
                         case None => old(ram[..])
                         case Some(r) => UprootAt(old(ram[..]), r)
    {
      Distinct(i);
      FidOk(fids[i]);
      Entries();
      hide Table, Fids, Empty;
      var e := Clunk(fids[i]);
    }

    // ---- the service loop ----

    /** Whether a request ends the server now. */
    ghost predicate Dies(q: Request)
      requires Valid()
      reads this, ram, repr, fids
    {
      AbsSound();
      Ends(q, Abs())
    }

    /** f is the i-th fid of the server, which p describes. */
    ghost predicate Facing(f: Fid, i: nat, p: Plain) reads this, ram, repr, fids {
      && Valid() && p == Abs() && i < |fids| && fids[i] == f && Parented(p.table)
      && i < |p.slots| && p.slots[i] == Slot(f.id, f.State()) && Fine(p.table, f.State())
    }

    lemma FacingIs(f: Fid, i: nat, p: Plain)
      requires Facing(f, i, p)
      ensures Valid() && i < |fids| == |p.slots| && fids[i] == f && f in repr && ram.Length == 2048
      ensures p.table == ram[..] && p.slots == Slots(fids) && p.path == path && Parented(p.table)
      ensures p.slots[i] == Slot(f.id, f.State()) && Fine(p.table, f.State()) && (f.busy ==> 0 <= f.ram < 2048)
      ensures f.State() == FidState(f.busy, f.open, f.rclose, f.ram) && (f.busy ==> f.At() == f.ram)
      ensures |Rest(fids, f)| == |fids| && Rest(fids, f)[i := p.slots[i]] == p.slots
    {
      Entries();
      RestIs(f, i);
      hide Table;
    }

    /** Only the i-th fid is not as it was. */
    lemma NowIs(f: Fid, i: nat, before: seq<Slot>)
      requires Valid() && i < |fids| == |before| && before[i].id == f.id && fids[i] == f
      requires |Rest(fids, f)| == |fids| && Rest(fids, f)[i := before[i]] == before
      ensures Abs() == Plain(ram[..], before[i := before[i].(fid := FidState(f.busy, f.open, f.rclose, f.ram))], path)
    {
      RestIs(f, i);
    }

    method AnswerAttach(f: Fid, ghost i: nat, ghost p: Plain) returns (a: Answer)
      requires Facing(f, i, p)
      modifies f`busy, f`rclose, f`ram
      ensures Valid() && (a, Abs()) == AttachStep(p, i)
    {
      FacingIs(f, i, p);
      hide Valid, Facing, Slots, Rest, Abs, Fid.State;
      var e := Attach(f);
      NowIs(f, i, p.slots);
      a := Answer(e, if e == None then [ram[0].path] else []);
    }

    method AnswerOpen(f: Fid, q: Request, ghost i: nat, ghost p: Plain) returns (a: Answer)
      requires Facing(f, i, p) && q.Open?
      modifies f`open, f`rclose
      ensures Valid() && (a, Abs()) == OpenStep(p, i, q)
    {
      FacingIs(f, i, p);
      hide Valid, Facing, Slots, Rest, Abs, Fid.State;
      var e := Open(f, q.reading, q.orclose, q.excl, q.mayParent, q.may);
      NowIs(f, i, p.slots);
      a := Answer(e, if e == None then [ram[f.ram].path] else []);
    }

    method AnswerCreate(f: Fid, q: Request, ghost i: nat, ghost p: Plain) returns (a: Answer)
      requires Facing(f, i, p) && q.Create?
      modifies this`nram, this`path, this`depth, ram, f
      ensures Valid() && (a, Abs()) == CreateStep(p, i, q.name, q.isDir, q.orclose, q.may)
    {
      FacingIs(f, i, p);
      hide *;
      ghost var f0 := f.State();
      var e := Create(f, q.name, q.isDir, q.orclose, q.may);
      NowIs(f, i, p.slots);
      CreateIs(p, i, q, e, f.ram, Abs());
      a := Answer(e, if e == None then [ram[f.ram].path] else []);
    }

    static lemma CreateIs(p: Plain, i: nat, q: Request, e: Option<Error>, r: int, p': Plain)
      requires i < |p.slots| && Fine(p.table, p.slots[i].fid) && q.Create?
      requires var f := p.slots[i].fid;
               e == if !f.busy then Some(Ebadfid) else if f.open then Some(Eisopen)
                    else CreateError(p.table, f.ram, q.name, q.may)
      requires e != None ==> p' == p
      requires e == None ==>
                 && 0 <= r < |p.table| && !p.table[r].busy && (forall j :: 0 <= j < r ==> p.table[j].busy)
                 && var f := p.slots[i].fid;
                    f.ram >= 0 && p'.table == p.table[r := Entry(true, q.isDir, p.path + 1, f.ram, q.name)]
                    && p'.slots == p.slots[i := p.slots[i].(fid := FidState(true, true, q.orclose || f.rclose, r))]
                    && p'.path == p.path + 1
      ensures (Answer(e, if e == None then [p'.table[r].path] else []), p')
           == CreateStep(p, i, q.name, q.isDir, q.orclose, q.may)
    {
      LowestFreeFree(p.table);
      if e == None {
        LowestFreeIs(p.table, r);
      }
    }

    method AnswerClunk(f: Fid, ghost i: nat, ghost p: Plain) returns (a: Answer)
      requires Facing(f, i, p) && (f.busy || !f.rclose)
      modifies ram, f
      ensures Valid() && (a, Abs()) == ClunkStep(p, i)
    {
      FacingIs(f, i, p);
      hide Valid, Facing, Slots, Rest, Abs, Fid.State, Empty;
      var e := Clunk(f);
      NowIs(f, i, p.slots);
      a := Answer(e, []);
    }

    method AnswerRemove(f: Fid, may: nat -> bool, ghost i: nat, ghost p: Plain) returns (a: Answer)
      requires Facing(f, i, p) && f.busy
      modifies ram, f
      ensures Valid() && p.slots[i].fid.busy && (a, Abs()) == RemoveStep(p, i, may)
    {
      FacingIs(f, i, p);
      hide Valid, Facing, Slots, Rest, Abs, Fid.State, Empty;
      var e := Remove(f, may);
      NowIs(f, i, p.slots);
      a := Answer(e, []);
    }

    method AnswerWstat(f: Fid, q: Request, ghost i: nat, ghost p: Plain) returns (a: Answer)
      requires Facing(f, i, p) && q.Wstat?
      modifies ram
      ensures Valid() && (a, Abs()) == WstatStep(p, i, q)
    {
      FacingIs(f, i, p);
      hide *;
      var e := Wstat(f, q.name, q.lengthOk, q.may, q.modeOk, q.groupOk);
      AbsIs();
      WstatIs(p, i, q, e, ram[..]);
      a := Answer(e, []);
    }

    static lemma WstatIs(p: Plain, i: nat, q: Request, e: Option<Error>, t: Nametree.Table)
      requires i < |p.slots| && Fine(p.table, p.slots[i].fid) && q.Wstat?
      requires !p.slots[i].fid.busy ==> e == Some(Ebadfid) && t == p.table
      requires p.slots[i].fid.busy ==>
                 var was := p.table[p.slots[i].fid.ram];
                 && e == (if !was.busy then Some(Enotexist) else if !q.lengthOk then Some(Eperm)
                          else if q.name != "" && q.name != was.name && !q.may then Some(Eperm)
                          else if q.name != "" && q.name != was.name && !IsChild(p.table, was.parent, q.name, None)
                          then Some(Eexist)
                          else if !q.modeOk || !q.groupOk then Some(Enotowner) else None)
                 && t == if e != None || q.name == "" then p.table
                         else p.table[p.slots[i].fid.ram := was.(name := q.name)]
      ensures (Answer(e, []), p.(table := t)) == WstatStep(p, i, q)
    {
      hide IsChild;
      assert p.slots[i].fid.busy ==> p.table[p.slots[i].fid.ram := p.table[p.slots[i].fid.ram]] == p.table;
    }

    method AnswerVersion(ours: bool) returns (a: Answer)
      requires Valid()
      modifies ram, repr
      ensures Valid() && (a, Abs()) == VersionStep(old(Abs()), ours)
    {
      hide Table, Fids, Slots, AllUprooted;
      var e := Version(ours);
      a := Answer(e, []);
    }

    /** The paths of the files a walk met. */
    method Qids(steps: seq<nat>) returns (qids: seq<nat>)
      requires forall k :: 0 <= k < |steps| ==> steps[k] < ram.Length
      ensures qids == PathsAt(ram[..], steps)
    {
      qids := [];
      var k := 0;
      while k < |steps|
        invariant 0 <= k == |qids| <= |steps|
        invariant forall j :: 0 <= j < k ==> qids[j] == ram[steps[j]].path
      {
        qids := qids + [ram[steps[k]].path];
        k := k + 1;
      }
    }

    method AnswerWalk(f: Fid, q: Request, ghost i: nat, ghost p: Plain) returns (a: Answer, crash: bool)
      requires Facing(f, i, p) && f.id == q.fid && q.Walk?
      modifies this`fids, this`repr, repr
      ensures Valid() && old(repr) <= repr && fresh(repr - old(repr))
      ensures crash <==> EndsServer(p.table, p.slots[i].fid, q)
      ensures !crash ==> (a, Abs()) == WalkStep(p, i, q)
    {
      FacingIs(f, i, p);
      var e, steps, g;
      e, steps, g, crash := WalkOn(f, q, i, p);
      hide *;
      a := Answer(e, []);
      if !crash && e == None {
        var qids := Qids(steps);
        a := Answer(e, qids);
      }
    }

    method WalkOn(f: Fid, q: Request, ghost i: nat, ghost p: Plain)
      returns (e: Option<Error>, steps: seq<nat>, g: Fid, crash: bool)
      requires Facing(f, i, p) && f.id == q.fid && q.Walk?
      modifies this`fids, this`repr, repr
      ensures Valid() && old(repr) <= repr && fresh(repr - old(repr))
      ensures crash <==> EndsServer(p.table, p.slots[i].fid, q)
      ensures ram[..] == p.table && forall k :: 0 <= k < |steps| ==> steps[k] < ram.Length
      ensures !crash ==> (Answer(e, if e == None then PathsAt(p.table, steps) else []), Abs()) == WalkStep(p, i, q)
    {
      FacingIs(f, i, p);
      hide *;
      e, steps, g, crash := Walk(f, q.newfid, q.names, q.mayWalk);
      FidIs(f);
      if g == f {
        NowIs(f, i, p.slots);
        WalkStays(p, i, q, e, steps, f.State());
      } else {
        AbsIs();
        WalkMoves(p, i, q, e, steps, crash);
      }
    }

    lemma FidIs(f: Fid)
      ensures f.State() == FidState(f.busy, f.open, f.rclose, f.ram)
    {
    }

    /** A walk of the fid itself, or none. */
    static lemma WalkStays(p: Plain, i: nat, q: Request, e: Option<Error>, steps: seq<nat>, f': FidState)
      requires i < |p.slots| && Parented(p.table) && Fine(p.table, p.slots[i].fid) && q.Walk?
      requires var f := p.slots[i].fid;
               if f.busy && (q.newfid == q.fid || (!f.open && p.table[f.ram].busy)) then
                 var (steps', err) := WalkTrail(p.table, f.ram, q.names, q.mayWalk);
                 && q.newfid == q.fid && steps == steps' && f' == f.(ram := Destination(steps, q.names, f.ram))
                 && e == if err == None && q.names != [] && steps == [] then Some(Enotexist) else err
               else
                 steps == [] && f' == f && e == Some(if !f.busy then Ebadfid else if f.open then Eisopen else Enotexist)
      ensures !EndsServer(p.table, p.slots[i].fid, q) && forall k :: 0 <= k < |steps| ==> steps[k] < |p.table|
      ensures (Answer(e, if e == None then PathsAt(p.table, steps) else []),
               p.(slots := p.slots[i := p.slots[i].(fid := f')])) == WalkStep(p, i, q)
    {
      var f := p.slots[i].fid;
      if f.busy {
        WalkTrailSound(p.table, f.ram, q.names, q.mayWalk);
      }
      hide WalkTrail;
      assert f' == f ==> p.slots[i := p.slots[i]] == p.slots;
    }

    /** A walk of another fid. */
    static lemma WalkMoves(p: Plain, i: nat, q: Request, e: Option<Error>, steps: seq<nat>, crash: bool)
      requires i < |p.slots| && Parented(p.table) && Fine(p.table, p.slots[i].fid) && q.Walk? && q.newfid != q.fid
      requires var f := p.slots[i].fid;
               && f.busy && !f.open && p.table[f.ram].busy
               && var (steps', err) := WalkTrail(p.table, f.ram, q.names, q.mayWalk);
                  && steps == steps' && (crash <==> |steps| < |q.names| || err != None)
                  && (!crash ==> e == if err == None && q.names != [] && steps == [] then Some(Enotexist) else err)
      ensures crash <==> EndsServer(p.table, p.slots[i].fid, q)
      ensures forall k :: 0 <= k < |steps| ==> steps[k] < |p.table|
      ensures !crash ==>
                var p' := p.(slots := Moved(p.slots, q.newfid, Destination(steps, q.names, p.slots[i].fid.ram)));
                (Answer(e, if e == None then PathsAt(p.table, steps) else []), p') == WalkStep(p, i, q)
    {
      WalkTrailSound(p.table, p.slots[i].fid.ram, q.names, q.mayWalk);
      hide WalkTrail, Moved;
    }

    static lemma WalkTrailSound(t: Nametree.Table, r: int, names: seq<string>, may: nat -> bool)
      requires Parented(t) && 0 <= r < |t|
      ensures forall k :: 0 <= k < |WalkTrail(t, r, names, may).0| ==> WalkTrail(t, r, names, may).0[k] < |t|
    {
      TrailSound(t, r, if |names| > 16 then names[..16] else names, may);
    }

    lemma AbsIs()
      ensures Abs() == Plain(ram[..], Slots(fids), path)
    {
    }

    lemma Parents()
      requires Valid()
      ensures Parented(ram[..])
    {
      hide Fids;
    }

    /** Any request but a walk. */
    method AnswerOther(f: Fid, q: Request, ghost i: nat, ghost p: Plain) returns (a: Answer)
      requires Facing(f, i, p) && !q.Walk?
      requires q.Remove? ==> f.busy
      requires q.Clunk? ==> f.busy || !f.rclose
      modifies this`nram, this`path, this`depth, ram, repr
      ensures Valid() && !EndsServer(p.table, p.slots[i].fid, q) && (a, Abs()) == Handle(q, p, i)
    {
      FacingIs(f, i, p);
      hide Valid, Facing, Slots, Rest, Abs;
      hide AttachStep, OpenStep, CreateStep, ClunkStep, RemoveStep, WstatStep, VersionStep, WalkStep;
      match q
      case Version(_, ours) => a := AnswerVersion(ours);
      case Attach(_) => a := AnswerAttach(f, i, p);
      case Open(_, _, _, _, _, _) => a := AnswerOpen(f, q, i, p);
      case Create(_, _, _, _, _) => a := AnswerCreate(f, q, i, p);
      case Clunk(_) => a := AnswerClunk(f, i, p);
      case Remove(_, may) => a := AnswerRemove(f, may, i, p);
      case Wstat(_, _, _, _, _, _) => a := AnswerWstat(f, q, i, p);
      case Other(_) => a := Answer(None, []);
    }

    /** The request is for f. */
    method ServeOn(f: Fid, q: Request, ghost i: nat, ghost p: Plain) returns (a: Answer, crash: bool)
      requires Facing(f, i, p) && f.id == q.fid
      modifies this, ram, repr
      ensures Valid() && old(repr) <= repr && fresh(repr - old(repr))
      ensures crash <==> EndsServer(p.table, p.slots[i].fid, q)
      ensures !crash ==> (a, Abs()) == Handle(q, p, i)
    {
      FacingIs(f, i, p);
      hide Valid, Facing, Slots, Rest, Abs, WalkStep;
      a := Answer(None, []);
      if q.Walk? {
        hide EndsServer;
        a, crash := AnswerWalk(f, q, i, p);
        return;
      }
      crash := !f.busy && (q.Remove? || (q.Clunk? && f.rclose));
      if !crash {
        a := AnswerOther(f, q, i, p);
      }
    }

    lemma NowFacing(f: Fid, i: nat)
      requires Valid() && i < |fids| && fids[i] == f
      ensures Facing(f, i, Abs()) && Abs() == Plain(ram[..], Slots(fids), path)
    {
      SlotsAre(fids);
      AbsSound();
    }

    /** One request: the answer and the new state are those of the plain server, unless the request ends the server. */
    method Serve(q: Request) returns (a: Answer, crash: bool)
      requires Valid()
      modifies this, ram, repr
      ensures Valid() && old(repr) <= repr && fresh(repr - old(repr))
      ensures crash <==> old(Dies(q))
      ensures Sound(old(Abs())) && (!crash ==> (a, Abs()) == Step(q, old(Abs())))
    {
      DiesIs(q);
      hide *;
      var f;
      ghost var i, p;
      f, i, p := FidFor(q);
      a, crash := ServeOn(f, q, i, p);
    }

    /** The fid that the request is for. */
    method FidFor(q: Request) returns (f: Fid, ghost i: nat, ghost p: Plain)
      requires Valid()
      modifies this`fids, this`repr, repr`id
      ensures Facing(f, i, p) && f.id == q.fid && old(repr) <= repr && fresh(repr - old(repr))
      ensures i < |p.slots| && Parented(p.table) && Fine(p.table, p.slots[i].fid) && Sound(old(Abs()))
      ensures Ends(q, old(Abs())) <==> EndsServer(p.table, p.slots[i].fid, q)
      ensures !Ends(q, old(Abs())) ==> Step(q, old(Abs())) == Handle(q, p, i)
    {
      DiesIs(q);
      AbsIs();
      hide *;
      ghost var before := Abs();
      f, i := NewFid(q.fid);
      NowFacing(f, i);
      StepIs(q, before, Slots(fids), i);
      p := Abs();
    }

    /** `io`: the answers to a run of requests are those of the plain server, up to the request that ends the server. */
    method Run(qs: seq<Request>) returns (answers: seq<Answer>)
      requires Valid()
      modifies this, ram, repr
      ensures Valid() && |answers| <= |qs| && answers == RunSpec(qs, old(Abs())).0
      ensures |answers| == |qs| ==> Abs() == RunSpec(qs, old(Abs())).1
      ensures |answers| < |qs| ==> var p := RunSpec(qs, old(Abs())).1; Sound(p) && Ends(qs[|answers|], p)
    {
      hide *;
      answers := [];
      ghost var p0 := Abs();
      RanStart(qs, p0);
      while |answers| < |qs|
        invariant Valid() && |answers| <= |qs|
        invariant old(repr) <= repr && fresh(repr - old(repr))
        invariant Ran(qs, p0, answers, Abs())
      {
        ghost var p := Abs();
        DiesIs(qs[|answers|]);
        var a, crash := Serve(qs[|answers|]);
        if crash {
          RanEnd(qs, p0, answers, p);
          return;
        }
        RanStep(qs, p0, answers, p);
        answers := answers + [a];
      }
      RanEnd(qs, p0, answers, Abs());
    }

    lemma DiesIs(q: Request)
      requires Valid()
      ensures Sound(Abs()) && (Dies(q) <==> Ends(q, Abs()))
    {
      AbsSound();
    }
  }

  /** Why 1 is excepted in `Paths`: the first file created gets the path of the file that was there. */
  method FirstCreated(name: string) returns (s: Server)
    requires name != "." && name != ".." && name != "file"
    ensures s.ram.Length == NRAM && s.ram[1].busy && s.ram[2].busy && s.ram[1].path == s.ram[2].path
  {
    s := new Server();
    assert s.ram[..] == seq(NRAM, Start);
    hide *;
    ghost var t := s.ram[..];
    FirstPlace(t, name);
    var f, _ := s.NewFid(0);
    var _ := s.Attach(f);
    CreateFirst(s, f, name, t);
  }

  method CreateFirst(s: Server, f: Fid, name: string, ghost t: Table)
    requires s.Valid() && f in s.repr && f.busy && !f.open && f.ram == 0 && s.path == 0
    requires t == s.ram[..] == seq(NRAM, Start) && CreateError(t, 0, name, true) == None
    modifies s, s.ram, f
    ensures s.ram.Length == NRAM && s.ram[1].busy && s.ram[2].busy && s.ram[1].path == s.ram[2].path
  {
    assert f.At() == 0;
    hide *;
    var e := s.Create(f, name, false, false, true);
    assert e == None;
    ghost var r: nat := f.ram;
    SecondPlace(t, r, name, s.ram[..]);
    assert s.ram[..][1] == s.ram[1] && s.ram[..][2] == s.ram[2];
  }

  lemma SecondPlace(t: Table, r: nat, name: string, t': Table)
    requires t == seq(NRAM, Start) && r < NRAM && !t[r].busy && forall j :: 0 <= j < r ==> t[j].busy
    requires t' == t[r := Entry(true, false, 1, 0, name)]
    ensures |t'| == NRAM > 2 && t'[1].busy && t'[2].busy && t'[1].path == t'[2].path
  {
    assert t[0].busy && t[1].busy && !t[2].busy;
  }

  lemma FirstPlace(t: Table, name: string)
    requires name != "." && name != ".." && name != "file"
    requires t == seq(NRAM, Start)
    ensures t[0].busy && t[1] == Entry(true, false, 1, 0, "file") && !t[2].busy && CreateError(t, 0, name, true) == None
  {
    assert IsChild(t, 0, name, None);
    assert !t[2].busy;
  }
}
