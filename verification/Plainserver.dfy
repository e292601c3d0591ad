/**
 * The memory file server as it looks to a client: a table of entries, a list of fids and one
 * step a request, without the loops and the objects of the program.
 */
module Plainserver {
  import opened Bytes
  import opened Nametree

  /** What a fid holds; ram is an index in the table. */
  datatype FidState = FidState(busy: bool, open: bool, rclose: bool, ram: int)

  datatype Slot = Slot(id: int, fid: FidState)

  /** The fids come in the order of the program's list, idle ones among them. */
  datatype Plain = Plain(table: Table, slots: seq<Slot>, path: nat)

  /** The requests that can change names; the others (read, write, stat, auth, flush) leave them alone. */
  datatype Request =
    | Version(fid: int, ours: bool)
    | Attach(fid: int)
    | Walk(fid: int, newfid: int, names: seq<string>, mayWalk: nat -> bool)
    | Open(fid: int, reading: bool, orclose: bool, excl: bool, mayParent: bool, may: bool)
    | Create(fid: int, name: string, isDir: bool, orclose: bool, may: bool)
    | Clunk(fid: int)
    | Remove(fid: int, mayRemove: nat -> bool)
    | Wstat(fid: int, name: string, lengthOk: bool, may: bool, modeOk: bool, groupOk: bool)
    | Other(fid: int)

  /** An error, or none and the paths of the files the answer tells of. */
  datatype Answer = Answer(error: Option<Error>, qids: seq<nat>)

  ghost predicate Parented(t: Table) { |t| > 0 && forall i :: 0 <= i < |t| ==> t[i].parent < |t| }

  ghost predicate Fine(t: Table, f: FidState) { f.busy ==> 0 <= f.ram < |t| }

  ghost predicate Sound(p: Plain) {
    Parented(p.table) && forall j :: 0 <= j < |p.slots| ==> Fine(p.table, p.slots[j].fid)
  }

  // ---- fids ----

  /** The first slot of that number, or the number of slots. */
  ghost function Numbered(ss: seq<Slot>, id: int): (i: nat)
    ensures i <= |ss| && (i < |ss| ==> ss[i].id == id)
  {
    if ss == [] || ss[0].id == id then 0 else 1 + Numbered(ss[1..], id)
  }

  /** The first idle slot, or the number of slots. */
  ghost function FirstIdle(ss: seq<Slot>): (i: nat)
    ensures i <= |ss| && (i < |ss| ==> !ss[i].fid.busy)
  {
    if ss == [] || !ss[0].fid.busy then 0 else 1 + FirstIdle(ss[1..])
  }

  lemma {:induction false} NumberedIs(ss: seq<Slot>, id: int, i: nat)
    requires i <= |ss| && (i < |ss| ==> ss[i].id == id) && forall j :: 0 <= j < i ==> ss[j].id != id
    ensures Numbered(ss, id) == i
  {
    if i > 0 {
      NumberedIs(ss[1..], id, i - 1);
    }
  }

  lemma {:induction false} FirstIdleIs(ss: seq<Slot>, i: nat)
    requires i <= |ss| && (i < |ss| ==> !ss[i].fid.busy) && forall j :: 0 <= j < i ==> ss[j].fid.busy
    ensures FirstIdle(ss) == i
  {
    if i > 0 {
      FirstIdleIs(ss[1..], i - 1);
    }
  }

  /** The slot for a number: the one it has, else an idle one, which keeps what it holds, else a new one in front. */
  ghost function Taken(ss: seq<Slot>, id: int): (r: (seq<Slot>, nat))
    ensures r.1 < |r.0| && r.0[r.1].id == id
    ensures r.0[r.1].fid.busy ==> r.1 < |ss| && r.0[r.1] == ss[r.1]
  {
    var i, k := Numbered(ss, id), FirstIdle(ss);
    if i < |ss| then (ss, i)
    else if k < |ss| then (ss[k := ss[k].(id := id)], k)
    else ([Slot(id, FidState(false, false, false, -1))] + ss, 0)
  }

  // ---- the requests ----

  /** A directory that holds something stays. */
  ghost predicate Holds(t: Table, i: nat)
    requires i < |t|
  {
    t[i].dir && !Empty(t, i)
  }

  ghost function Closed(f: FidState): FidState {
    if f.busy then FidState(false, false, f.rclose, -1) else f
  }

  ghost function Mark(f: FidState): Option<nat> {
    if f.busy && f.rclose && f.ram >= 0 then Some(f.ram) else None
  }

  ghost function Marks(ss: seq<Slot>): (ms: seq<Option<nat>>)
    ensures |ms| == |ss| && forall j :: 0 <= j < |ss| ==> ms[j] == Mark(ss[j].fid)
  { seq(|ss|, j requires 0 <= j < |ss| => Mark(ss[j].fid)) }

  ghost function AllClosed(ss: seq<Slot>): (cs: seq<Slot>)
    ensures |cs| == |ss| && forall j :: 0 <= j < |ss| ==> cs[j] == ss[j].(fid := Closed(ss[j].fid))
  { seq(|ss|, j requires 0 <= j < |ss| => ss[j].(fid := Closed(ss[j].fid))) }

  /** Every fid is closed, which removes what was to be removed on close. */
  ghost function VersionStep(p: Plain, ours: bool): (Answer, Plain) {
    (Answer(if ours then None else Some(Eversion), []),
     Plain(AllUprooted(p.table, Doomed(Marks(p.slots))), AllClosed(p.slots), p.path))
  }

  ghost function Set(p: Plain, i: nat, f: FidState): Plain
    requires i < |p.slots|
  {
    p.(slots := p.slots[i := p.slots[i].(fid := f)])
  }

  ghost function AttachStep(p: Plain, i: nat): (Answer, Plain)
    requires i < |p.slots| && |p.table| > 0
  {
    var f := p.slots[i].fid;
    if f.busy then (Answer(Some(Ebadfid), []), p)
    else (Answer(None, [p.table[0].path]), Set(p, i, FidState(true, f.open, false, 0)))
  }

  ghost function ClunkStep(p: Plain, i: nat): (Answer, Plain)
    requires i < |p.slots| && Fine(p.table, p.slots[i].fid)
  {
    var f := p.slots[i].fid;
    var going := f.busy && f.rclose;
    (Answer(if going && Holds(p.table, f.ram) then Some(Enotempty) else None, []),
     Set(p, i, FidState(false, false, f.rclose, -1)).(table := if going then UprootAt(p.table, f.ram) else p.table))
  }

  /** The fid goes whatever happens to the file. */
  ghost function RemoveStep(p: Plain, i: nat, may: nat -> bool): (Answer, Plain)
    requires i < |p.slots| && p.slots[i].fid.busy && Fine(p.table, p.slots[i].fid)
  {
    var f := p.slots[i].fid;
    var e := if p.table[f.ram].path == 0 || !may(p.table[f.ram].parent) then Some(Eperm)
             else if Holds(p.table, f.ram) then Some(Enotempty) else None;
    (Answer(e, []), Set(p, i, FidState(false, false, f.rclose, -1))
       .(table := if e == None then UprootAt(p.table, f.ram) else p.table))
  }

  /** The lowest free place of the table, or its length. */
  ghost function LowestFree(t: Table): (r: nat)
    ensures r <= |t|
  {
    if t == [] || !t[0].busy then 0 else 1 + LowestFree(t[1..])
  }

  lemma {:induction false} LowestFreeIs(t: Table, r: nat)
    requires r < |t| && !t[r].busy && forall j :: 0 <= j < r ==> t[j].busy
    ensures LowestFree(t) == r
  {
    if r > 0 {
      LowestFreeIs(t[1..], r - 1);
    }
  }

  /** There is a free place when nothing is in the way of creating. */
  lemma {:induction false} LowestFreeFree(t: Table)
    ensures var r := LowestFree(t);
            && (forall j :: 0 <= j < r ==> t[j].busy)
            && if r < |t| then !t[r].busy else forall j :: 0 <= j < |t| ==> t[j].busy
  {
    if t != [] && t[0].busy {
      LowestFreeFree(t[1..]);
    }
  }

  /** One entry is new, under the next path, and the fid is open on it. */
  ghost function CreateStep(p: Plain, i: nat, name: string, isDir: bool, orclose: bool, may: bool): (Answer, Plain)
    requires i < |p.slots| && Fine(p.table, p.slots[i].fid)
  {
    var f := p.slots[i].fid;
    var e := if !f.busy then Some(Ebadfid) else if f.open then Some(Eisopen)
             else CreateError(p.table, f.ram, name, may);
    var r := LowestFree(p.table);
    if e != None || r >= |p.table| then (Answer(e, []), p)
    else (Answer(None, [p.path + 1]),
          Plain(p.table[r := Entry(true, isDir, p.path + 1, f.ram, name)],
                Set(p, i, FidState(true, true, orclose || f.rclose, r)).slots, p.path + 1))
  }

  ghost function OpenStep(p: Plain, i: nat, q: Request): (Answer, Plain)
    requires i < |p.slots| && Fine(p.table, p.slots[i].fid) && q.Open?
  {
    var f := p.slots[i].fid;
    if !f.busy then (Answer(Some(Ebadfid), []), p)
    else if f.open then (Answer(Some(Eisopen), []), p)
    else if !p.table[f.ram].busy then (Answer(Some(Enotexist), []), p)
    else if q.excl then (Answer(Some(Excl), []), p)
    else if p.table[f.ram].dir then
      (if q.reading then Answer(None, [p.table[f.ram].path]) else Answer(Some(Eperm), []), p)
    else if q.orclose && (f.ram == 0 || !q.mayParent) then (Answer(Some(Eperm), []), p)
    else if !q.may then (Answer(Some(Eperm), []), Set(p, i, f.(rclose := f.rclose || q.orclose)))
    else (Answer(None, [p.table[f.ram].path]), Set(p, i, f.(open := true, rclose := f.rclose || q.orclose)))
  }

  ghost function WstatStep(p: Plain, i: nat, q: Request): (Answer, Plain)
    requires i < |p.slots| && Fine(p.table, p.slots[i].fid) && q.Wstat?
  {
    var f := p.slots[i].fid;
    if !f.busy then (Answer(Some(Ebadfid), []), p)
    else
      var old' := p.table[f.ram];
      var renames := q.name != "" && q.name != old'.name;
      var e := if !old'.busy then Some(Enotexist) else if !q.lengthOk || (renames && !q.may) then Some(Eperm)
               else if renames && !IsChild(p.table, old'.parent, q.name, None) then Some(Eexist)
               else if !q.modeOk || !q.groupOk then Some(Enotowner) else None;
      (Answer(e, []),
       if e == None && renames then p.(table := p.table[f.ram := old'.(name := q.name)]) else p)
  }

  ghost function PathsAt(t: Table, steps: seq<nat>): (ps: seq<nat>)
    ensures |ps| == |steps| && forall k :: 0 <= k < |steps| && steps[k] < |t| ==> ps[k] == t[steps[k]].path
  { seq(|steps|, k requires 0 <= k < |steps| => if steps[k] < |t| then t[steps[k]].path else 0) }

  /** The entries met along the first 16 names. */
  ghost function WalkTrail(t: Table, r: int, names: seq<string>, may: nat -> bool): (seq<nat>, Option<Error>)
    requires Parented(t) && 0 <= r < |t|
  {
    Trail(t, r, if |names| > 16 then names[..16] else names, may)
  }

  /** Where a walk ends: at the last entry met, if all names were followed. */
  ghost function Destination(steps: seq<nat>, names: seq<string>, r: int): int {
    if |steps| == |names| && steps != [] then steps[|steps| - 1] else r
  }

  /** A fid moves only by a complete walk, and a walk to another fid is complete or ends the server. */
  ghost function WalkStep(p: Plain, i: nat, q: Request): (Answer, Plain)
    requires i < |p.slots| && Parented(p.table) && Fine(p.table, p.slots[i].fid) && q.Walk?
  {
    var f := p.slots[i].fid;
    if !f.busy then (Answer(Some(Ebadfid), []), p)
    else if q.newfid != q.fid && f.open then (Answer(Some(Eisopen), []), p)
    else if q.newfid != q.fid && !p.table[f.ram].busy then (Answer(Some(Enotexist), []), p)
    else
      var (steps, err) := WalkTrail(p.table, f.ram, q.names, q.mayWalk);
      var e := if err == None && q.names != [] && steps == [] then Some(Enotexist) else err;
      var to := Destination(steps, q.names, f.ram);
      (Answer(e, if e == None then PathsAt(p.table, steps) else []),
       if q.newfid == q.fid then Set(p, i, f.(ram := to))
       else p.(slots := Moved(p.slots, q.newfid, to)))
  }

  lemma MovedOn(ss: seq<Slot>, id: int, r: int, to: int)
    ensures var j := Taken(ss, id).1;
            j < |Moved(ss, id, r)| && Moved(ss, id, r)[j].id == id
            && Moved(ss, id, r)[j := Slot(id, FidState(true, false, false, to))] == Moved(ss, id, to)
  {
  }

  /** The fid of that number, in use or not, comes to name r. */
  ghost function Moved(ss: seq<Slot>, id: int, r: int): seq<Slot> {
    var (now, j) := Taken(ss, id);
    now[j := Slot(id, FidState(true, false, false, r))]
  }

  /**
   * The requests that end the server: what follows the null pointer of an idle fid, and a walk
   * to another fid that is not complete.
   */
  ghost predicate EndsServer(t: Table, f: FidState, q: Request)
    requires Parented(t) && Fine(t, f)
  {
    match q
    case Clunk(_) => !f.busy && f.rclose
    case Remove(_, _) => !f.busy
    case Walk(_, newfid, names, may) =>
      && f.busy && newfid != q.fid && !f.open && t[f.ram].busy
      && var (steps, err) := WalkTrail(t, f.ram, names, may); |steps| < |names| || err != None
    case _ => false
  }

  /** The request is for slot i. */
  ghost function Handle(q: Request, p: Plain, i: nat): (Answer, Plain)
    requires i < |p.slots| && Parented(p.table) && Fine(p.table, p.slots[i].fid)
    requires !EndsServer(p.table, p.slots[i].fid, q)
  {
    match q
    case Version(_, ours) => VersionStep(p, ours)
    case Attach(_) => AttachStep(p, i)
    case Walk(_, _, _, _) => WalkStep(p, i, q)
    case Open(_, _, _, _, _, _) => OpenStep(p, i, q)
    case Create(_, name, isDir, orclose, may) => CreateStep(p, i, name, isDir, orclose, may)
    case Clunk(_) => ClunkStep(p, i)
    case Remove(_, may) => RemoveStep(p, i, may)
    case Wstat(_, _, _, _, _, _) => WstatStep(p, i, q)
    case Other(_) => (Answer(None, []), p)
  }

  ghost function Asked(q: Request, p: Plain): Plain { p.(slots := Taken(p.slots, q.fid).0) }

  ghost function Asker(q: Request, p: Plain): nat { Taken(p.slots, q.fid).1 }

  ghost predicate Ends(q: Request, p: Plain)
    requires Sound(p)
  {
    EndsServer(p.table, Taken(p.slots, q.fid).0[Asker(q, p)].fid, q)
  }

  /** One request. */
  ghost function Step(q: Request, p: Plain): (Answer, Plain)
    requires Sound(p) && !Ends(q, p)
  {
    Handle(q, Asked(q, p), Asker(q, p))
  }

  lemma {:induction false} UprootedSound(t: Table, todo: seq<nat>)
    requires Parented(t)
    ensures |AllUprooted(t, todo)| == |t| && Parented(AllUprooted(t, todo))
    decreases |todo|
  {
    if todo != [] {
      UprootedSound(UprootAt(t, todo[0]), todo[1..]);
    }
  }

  lemma {:induction false} TrailSound(t: Table, cur: nat, names: seq<string>, may: nat -> bool)
    requires Parented(t) && cur < |t|
    ensures forall k :: 0 <= k < |Trail(t, cur, names, may).0| ==> Trail(t, cur, names, may).0[k] < |t|
    decreases |names|
  {
    if names != [] {
      var h := Follow(t, cur, names[0], may);
      if h.To? && h.i < |t| {
        TrailSound(t, h.i, names[1..], may);
      }
    }
  }

  /** A step leaves fids that name entries. */
  lemma StepSound(q: Request, p: Plain)
    requires Sound(p) && !Ends(q, p)
    ensures Sound(Step(q, p).1)
  {
    var p0, i := Asked(q, p), Asker(q, p);
    assert Sound(p0);
    HandleSound(q, p0, i);
  }

  lemma HandleSound(q: Request, p: Plain, i: nat)
    requires i < |p.slots| && Sound(p) && !EndsServer(p.table, p.slots[i].fid, q)
    ensures Sound(Handle(q, p, i).1)
  {
    hide Empty, IsChild, AllUprooted, Trail, CreateError;
    var f := p.slots[i].fid;
    match q
    case Version(_, _) => UprootedSound(p.table, Doomed(Marks(p.slots)));
    case Walk(_, newfid, names, may) =>
      if f.busy {
        TrailSound(p.table, f.ram, if |names| > 16 then names[..16] else names, may);
        hide EndsServer;
      }
    case _ =>
  }

  lemma StepIs(q: Request, p: Plain, ss: seq<Slot>, i: nat)
    requires Sound(p) && (ss, i) == Taken(p.slots, q.fid)
    ensures i < |ss| && Parented(p.table) && Fine(p.table, ss[i].fid)
    ensures Ends(q, p) <==> EndsServer(p.table, ss[i].fid, q)
    ensures !Ends(q, p) ==> Step(q, p) == Handle(q, Plain(p.table, ss, p.path), i)
  {
    hide Handle, EndsServer;
  }

  /** All requests, or those before the one that ends the server. */
  ghost function RunSpec(qs: seq<Request>, p: Plain): (seq<Answer>, Plain) {
    if qs == [] || !Sound(p) || Ends(qs[0], p) then ([], p)
    else
      var (a, p') := Step(qs[0], p);
      var (rest, p'') := RunSpec(qs[1..], p');
      ([a] + rest, p'')
  }

  /** The first requests were answered, which led to p. */
  ghost predicate Ran(qs: seq<Request>, p0: Plain, answers: seq<Answer>, p: Plain) {
    && |answers| <= |qs|
    && RunSpec(qs, p0) == (answers + RunSpec(qs[|answers|..], p).0, RunSpec(qs[|answers|..], p).1)
  }

  lemma RanStart(qs: seq<Request>, p: Plain)
    ensures Ran(qs, p, [], p)
  {
    assert qs[0..] == qs && [] + RunSpec(qs, p).0 == RunSpec(qs, p).0;
  }

  lemma RanStep(qs: seq<Request>, p0: Plain, answers: seq<Answer>, p: Plain)
    requires |answers| < |qs| && Ran(qs, p0, answers, p) && Sound(p) && !Ends(qs[|answers|], p)
    ensures var (a, p') := Step(qs[|answers|], p); Ran(qs, p0, answers + [a], p')
  {
    var k := |answers|;
    var (a, p') := Step(qs[k], p);
    assert qs[k..][0] == qs[k] && qs[k..][1..] == qs[k + 1..];
    var rest := RunSpec(qs[k + 1..], p').0;
    assert answers + ([a] + rest) == (answers + [a]) + rest;
  }

  /** No request is left, or the next one ends the server. */
  lemma RanEnd(qs: seq<Request>, p0: Plain, answers: seq<Answer>, p: Plain)
    requires Ran(qs, p0, answers, p) && (|answers| < |qs| ==> Sound(p) && Ends(qs[|answers|], p))
    ensures RunSpec(qs, p0) == (answers, p)
  {
    assert |answers| < |qs| ==> qs[|answers|..][0] == qs[|answers|];
    assert answers + [] == answers;
  }

  // ---- what clients may count on ----

  /** A request that walks a fid along one name. */
  ghost predicate WalksTo(w: Request, p: Plain, d: nat, name: string)
    requires Sound(p)
  {
    && w.Walk? && w.newfid == w.fid && w.names == [name] && d < |p.table| && w.mayWalk(p.table[d].parent)
    && var f := Taken(p.slots, w.fid).0[Asker(w, p)].fid; f.busy && f.ram == d
  }

  lemma OneName(w: Request, p: Plain, d: nat, name: string)
    requires Sound(p) && WalksTo(w, p, d, name) && p.table[d].busy && p.table[d].dir && name != "." && name != ".."
    ensures !Ends(w, p)
    ensures Step(w, p).0 == match Lookup(p.table, d, name, 0)
                            case Some(r) => if r < |p.table| then Answer(None, [p.table[r].path]) else Answer(None, [])
                            case None => Answer(Some(Enotexist), [])
  {
    var t := p.table;
    LookupFinds(t, d, name, 0);
    var h := Follow(t, d, name, w.mayWalk);
    assert w.names[0] == name && w.names[1..] == [];
    if h.To? {
      assert Trail(t, h.i, w.names[1..], w.mayWalk) == ([], None) && [h.i] + [] == [h.i];
      assert Trail(t, d, w.names, w.mayWalk) == ([h.i], None);
      assert PathsAt(t, [h.i]) == [t[h.i].path];
    }
  }

  /** After a Tcreate that was answered without an error a walk by that name reaches the new file. */
  lemma CreateThenWalk(q: Request, p: Plain, w: Request)
    requires Sound(p) && q.Create? && Step(q, p).0.error == None && Sound(Step(q, p).1)
    requires WalksTo(w, Step(q, p).1, Asked(q, p).slots[Asker(q, p)].fid.ram, q.name)
    ensures !Ends(w, Step(q, p).1) && Step(w, Step(q, p).1).0 == Answer(None, [p.path + 1])
  {
    var t, d, p' := p.table, Asked(q, p).slots[Asker(q, p)].fid.ram, Step(q, p).1;
    LowestFreeFree(t);
    var r := LowestFree(t);
    var e := Entry(true, q.isDir, p.path + 1, d, q.name);
    assert p'.table == t[r := e];
    CreatedIsFound(t, d, q.name, r, e);
    OneName(w, p', d, q.name);
  }

  /**
   * After a Tremove that was answered without an error no walk finds the name, and all other
   * names lead where they did.
   */
  lemma RemoveThenWalk(q: Request, p: Plain, w: Request, d: nat, name: string)
    requires Sound(p) && q.Remove? && !Ends(q, p) && Step(q, p).0.error == None && Sound(Step(q, p).1)
    requires Names(p.table) && Paths(p.table, p.path)
    requires WalksTo(w, Step(q, p).1, d, name) && name != "." && name != ".."
    requires Step(q, p).1.table[d].busy && Step(q, p).1.table[d].dir
    ensures var r := Asked(q, p).slots[Asker(q, p)].fid.ram;
            var p' := Step(q, p).1;
            !Ends(w, p')
            && Step(w, p').0 ==
                 if p.table[r].parent == d && p.table[r].name == name then Answer(Some(Enotexist), [])
                 else match Lookup(p.table, d, name, 0)
                      case Some(c) => if c < |p.table| then Answer(None, [p.table[c].path]) else Answer(None, [])
                      case None => Answer(Some(Enotexist), [])
  {
    var r, p' := Asked(q, p).slots[Asker(q, p)].fid.ram, Step(q, p).1;
    assert p'.table == p.table[r := FREE];
    RemovedIsGone(p.table, r, d, name);
    LookupFinds(p.table, d, name, 0);
    OneName(w, p', d, name);
  }
}
