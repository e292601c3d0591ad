/**
 * What a buffered stream should look like from outside: a file, a position in it, and the
 * bytes that will be read next, which differ from the file only after a dishonest push-back.
 */
module Plainfile {
  import opened Bytes

  const EOF := -1

  /** What the stream was last used for. */
  datatype Mode = Idle | Reading | Writing | Ended

  datatype View = View(mode: Mode, bytes: seq<byte>, pos: int, unread: seq<byte>)

  datatype Whence = FromStart | FromHere | FromEnd

  /** Writing at a position beyond the end leaves zeros in between. */
  function Overwrite(c: seq<byte>, pos: nat, data: seq<byte>): seq<byte> {
    if data == [] then c
    else if pos + |data| <= |c| then c[..pos] + data + c[pos + |data|..]
    else if pos <= |c| then c[..pos] + data
    else c + Zeros(pos - |c|) + data
  }

  /** A stretch of an array was filled and the rest left alone. */
  ghost predicate Filled(before: seq<byte>, after: seq<byte>, at: nat, chunk: seq<byte>) {
    at + |chunk| <= |before| && after == before[..at] + chunk + before[at + |chunk|..]
  }

  /** The stretch holds d bytes of c from pos. */
  ghost predicate Took(before: seq<byte>, after: seq<byte>, at: nat, d: nat, c: seq<byte>, pos: nat) {
    pos + d <= |c| && Filled(before, after, at, c[pos..pos + d])
  }

  lemma TookFirst(before: seq<byte>, after: seq<byte>, d: nat, c: seq<byte>, pos: nat)
    requires Took(before, after, 0, d, c, pos)
    ensures |after| == |before| >= d && pos + d <= |c| && after[..d] == c[pos..pos + d]
  {
  }

  lemma FilledMore(a: seq<byte>, b: seq<byte>, c: seq<byte>, x: seq<byte>, y: seq<byte>)
    requires Filled(a, b, 0, x) && Filled(b, c, |x|, y)
    ensures Filled(a, c, 0, x + y)
  {
  }

  /** The bytes of c from a position on. */
  function Tail(c: seq<byte>, pos: int): seq<byte> {
    if 0 <= pos <= |c| then c[pos..] else []
  }

  /** Nothing dishonest was pushed back: what will be read next is what the file holds at the position. */
  predicate Honest(v: View) { 0 <= v.pos && v.unread == Tail(v.bytes, v.pos) }

  // ---- the operations ----

  /** n bytes were read. */
  function Advance(v: View, n: nat): View
    requires n <= |v.unread|
  {
    if n == 0 then v else View(Reading, v.bytes, v.pos + n, v.unread[n..])
  }

  /** getc. */
  function GetSpec(v: View): (int, View) {
    if v.mode == Writing || v.mode == Ended then (-1 as int, v)
    else if v.unread == [] then (-1 as int, v.(mode := Ended))
    else (v.unread[0], Advance(v, 1))
  }

  /** fread of n bytes: all there are, and the end is noticed only when they are too few. */
  function ReadSpec(v: View, n: nat): (seq<byte>, View) {
    if n == 0 || v.mode == Writing || v.mode == Ended then ([], v)
    else if n <= |v.unread| then (v.unread[..n], Advance(v, n))
    else (v.unread, Advance(v, |v.unread|).(mode := Ended))
  }

  /** putc and fwrite. */
  function WriteSpec(v: View, data: seq<byte>): View {
    if data == [] || v.pos < 0 then v
    else
      var b := Overwrite(v.bytes, v.pos, data);
      View(Writing, b, v.pos + |data|, Tail(b, v.pos + |data|))
  }

  /** ungetc. */
  function BackSpec(v: View, c: byte): View {
    View(Reading, v.bytes, v.pos - 1, [c] + v.unread)
  }

  function Target(v: View, offs: int, whence: Whence): int {
    match whence
    case FromStart => offs
    case FromHere => v.pos + offs
    case FromEnd => |v.bytes| + offs
  }

  function FlushSpec(v: View): View { if v.mode == Writing then v.(mode := Idle) else v }

  /** fseek, which fails for a negative target but has flushed by then. */
  function SeekSpec(v: View, offs: int, whence: Whence): (int, View) {
    var t := Target(v, offs, whence);
    if t < 0 then (-1, FlushSpec(v)) else (0, View(Idle, v.bytes, t, Tail(v.bytes, t)))
  }

  // ---- how they combine ----

  /** The file has the new bytes at the position, its old bytes elsewhere, and zeros in a gap. */
  lemma OverwriteAt(c: seq<byte>, pos: nat, data: seq<byte>, i: nat)
    requires data != []
    ensures var r := Overwrite(c, pos, data);
      && |r| == (if pos + |data| <= |c| then |c| else pos + |data|)
      && (i < |r| ==> r[i] == if pos <= i < pos + |data| then data[i - pos] else if i < |c| then c[i] else 0)
  {
  }

  lemma OverwriteAppend(c: seq<byte>, pos: nat, a: seq<byte>, b: seq<byte>)
    ensures Overwrite(Overwrite(c, pos, a), pos + |a|, b) == Overwrite(c, pos, a + b)
  {
    if a == [] {
      assert a + b == b;
    } else if b == [] {
      assert a + b == a;
    } else {
      var x, y := Overwrite(Overwrite(c, pos, a), pos + |a|, b), Overwrite(c, pos, a + b);
      assert |x| == |y|;
      forall i | 0 <= i < |x| ensures x[i] == y[i] {
      }
    }
  }

  lemma WriteAppend(v: View, a: seq<byte>, b: seq<byte>)
    ensures WriteSpec(WriteSpec(v, a), b) == WriteSpec(v, a + b)
  {
    hide Overwrite;
    if v.pos >= 0 {
      OverwriteAppend(v.bytes, v.pos, a, b);
    }
    if a == [] {
      assert a + b == b;
    } else if b == [] {
      assert a + b == a;
    }
  }

  /** A buffer filled from the file: what is unread stays the same. */
  lemma TailSplit(c: seq<byte>, pos: nat, n: nat)
    requires pos + n <= |c|
    ensures Tail(c, pos) == c[pos..pos + n] + Tail(c, pos + n)
  {
    assert c[pos..] == c[pos..pos + n] + c[pos + n..];
  }

  lemma GetFromFile(v: View)
    requires Honest(v) && (v.mode == Idle || v.mode == Reading)
    ensures GetSpec(v) == if v.pos < |v.bytes|
                          then (v.bytes[v.pos], View(Reading, v.bytes, v.pos + 1, Tail(v.bytes, v.pos + 1)))
                          else (-1 as int, v.(mode := Ended))
  {
    if v.pos < |v.bytes| {
      assert v.bytes[v.pos..][1..] == v.bytes[v.pos + 1..];
    }
  }

  /** One round of fread moved d of the n bytes wanted to p[at..], or found that there are none. */
  ghost predicate Got(v: View, before: seq<byte>, after: seq<byte>, at: nat, n: nat, d: nat, now: View) {
    && d <= n && d <= |v.unread| && Filled(before, after, at, v.unread[..d])
    && (v.mode == Idle || v.mode == Reading || d == 0)
    && (if d > 0 then now == Advance(v, d) else n > 0 && ReadSpec(v, n) == ([], now))
  }

  lemma GotNone(v: View, p: seq<byte>, at: nat, n: nat, now: View)
    requires at <= |p| && n > 0 && ReadSpec(v, n) == ([], now)
    ensures Got(v, p, p, at, n, 0, now)
  {
  }

  lemma GotFromFile(v: View, before: seq<byte>, after: seq<byte>, at: nat, n: nat, d: nat)
    requires Honest(v) && v.mode == Reading && 0 < d <= n && v.pos + d <= |v.bytes|
    requires Took(before, after, at, d, v.bytes, v.pos)
    ensures Got(v, before, after, at, n, d, View(Reading, v.bytes, v.pos + d, Tail(v.bytes, v.pos + d)))
  {
    assert v.unread[..d] == v.bytes[v.pos..v.pos + d] && v.unread[d..] == v.bytes[v.pos + d..];
  }

  lemma GotFromBuffer(v: View, have: seq<byte>, rest: seq<byte>, before: seq<byte>, after: seq<byte>, at: nat,
      n: nat, d: nat)
    requires v.mode == Reading && v.unread == have + rest && 0 < d <= n && d <= |have|
    requires Filled(before, after, at, have[..d])
    ensures Got(v, before, after, at, n, d, View(Reading, v.bytes, v.pos + d, have[d..] + rest))
  {
    assert v.unread[..d] == have[..d] && v.unread[d..] == have[d..] + rest;
  }

  lemma GotOne(v: View, before: seq<byte>, after: seq<byte>, at: nat, n: nat, now: View)
    requires |v.unread| > 0 && n > 0 && at < |before| && GetSpec(v) == (v.unread[0], now)
    requires v.mode == Idle || v.mode == Reading
    requires after == before[at := v.unread[0]]
    ensures Got(v, before, after, at, n, 1, now)
  {
    assert after == before[..at] + v.unread[..1] + before[at + 1..];
  }

  /** fread after s bytes, with n to go unless it is over. */
  ghost predicate Midway(v: View, before: seq<byte>, after: seq<byte>, s: nat, n: nat, more: bool, now: View) {
    && s <= |v.unread| && Filled(before, after, 0, v.unread[..s])
    && (s > 0 ==> v.mode == Idle || v.mode == Reading)
    && (if more then now == Advance(v, s) else ReadSpec(v, s + n) == (v.unread[..s], now))
  }

  /** The first s bytes that were unread are in the array, and it is otherwise as it was. */
  ghost predicate Arrived(v: View, before: seq<byte>, after: seq<byte>, s: nat) {
    s <= |v.unread| && Filled(before, after, 0, v.unread[..s])
  }

  lemma MidwayArrived(v: View, before: seq<byte>, mid: seq<byte>, s: nat, n: nat, now: View)
    requires Midway(v, before, mid, s, n, true, now)
    ensures Arrived(v, before, mid, s)
  {
  }

  lemma MidwayStart(v: View, p: seq<byte>, n: nat)
    ensures Midway(v, p, p, 0, n, n > 0, v)
  {
  }

  lemma MidwayStep(v: View, before: seq<byte>, mid: seq<byte>, after: seq<byte>, s: nat, n: nat, d: nat,
      now: View, then': View)
    requires Midway(v, before, mid, s, n, true, now) && Got(now, mid, after, s, n, d, then')
    ensures Midway(v, before, after, s + d, n - d, d > 0 && n - d > 0, then')
  {
    var x, y := v.unread[..s], now.unread[..d];
    assert now.unread == v.unread[s..];
    assert x + y == v.unread[..s + d];
    FilledMore(before, mid, after, x, y);
    if d > 0 {
      AdvanceAdd(v, s, d);
    } else {
      assert s == 0 || (now.unread == [] && v.unread[..s] == v.unread);
    }
  }

  lemma MidwayEnd(v: View, before: seq<byte>, after: seq<byte>, s: nat, n: nat, now: View)
    requires Midway(v, before, after, s, n, false, now)
    ensures ReadSpec(v, s + n).1 == now && |ReadSpec(v, s + n).0| == s && Filled(before, after, 0, ReadSpec(v, s + n).0)
  {
  }

  lemma NothingLeft(v: View, n: nat)
    requires v.unread == [] && n > 0 && (v.mode == Idle || v.mode == Reading)
    ensures ReadSpec(v, n) == ([], v.(mode := Ended))
  {
  }

  /** The view while `pending` waits to be written at pos. */
  function Shown(c: seq<byte>, pos: nat, pending: seq<byte>): View {
    var b := Overwrite(c, pos, pending);
    View(Writing, b, pos + |pending|, Tail(b, pos + |pending|))
  }

  lemma ShownWrite(v: View, c: seq<byte>, pos: nat, pending: seq<byte>, data: seq<byte>)
    requires v.bytes == Overwrite(c, pos, pending) && v.pos == pos + |pending| && data != []
    ensures WriteSpec(v, data) == Shown(c, pos, pending + data)
  {
    OverwriteAppend(c, pos, pending, data);
  }

  lemma ShownParts(v: View, c: seq<byte>, pos: nat, pending: seq<byte>)
    requires v == Shown(c, pos, pending)
    ensures v.bytes == Overwrite(c, pos, pending) && v.pos == pos + |pending|
  {
  }

  lemma SameWrite(v: View, w: View, data: seq<byte>)
    requires v.bytes == w.bytes && v.pos == w.pos && data != [] && v.pos >= 0
    ensures WriteSpec(v, data) == WriteSpec(w, data)
  {
  }

  lemma ShownDrain(c: seq<byte>, pos: nat, pending: seq<byte>)
    ensures Shown(c, pos, pending) == Shown(Overwrite(c, pos, pending), pos + |pending|, [])
  {
  }

  lemma AdvanceAdd(v: View, a: nat, b: nat)
    requires a + b <= |v.unread|
    ensures Advance(Advance(v, a), b) == Advance(v, a + b)
  {
    if a > 0 && b > 0 {
      assert v.unread[a..][b..] == v.unread[a + b..];
    }
  }

  lemma AdvanceHonest(v: View, n: nat)
    requires Honest(v) && n <= |v.unread|
    ensures Honest(Advance(v, n))
  {
    if n > 0 {
      assert v.bytes[v.pos..][n..] == v.bytes[v.pos + n..];
    }
  }

  /** Pushing back the byte just read keeps a view honest. */
  lemma BackHonest(v: View)
    requires Honest(v) && 0 < v.pos <= |v.bytes|
    ensures Honest(BackSpec(v, v.bytes[v.pos - 1]))
  {
    assert [v.bytes[v.pos - 1]] + v.bytes[v.pos..] == v.bytes[v.pos - 1..];
  }

  /** So do reading, writing and seeking. */
  lemma StaysHonest(v: View, data: seq<byte>, n: nat, offs: int, whence: Whence)
    requires Honest(v)
    ensures Honest(GetSpec(v).1) && Honest(ReadSpec(v, n).1) && Honest(WriteSpec(v, data))
    ensures Honest(FlushSpec(v)) && Honest(SeekSpec(v, offs, whence).1)
  {
    if n <= |v.unread| {
      AdvanceHonest(v, n);
    }
    if v.unread != [] {
      AdvanceHonest(v, 1);
    }
    AdvanceHonest(v, |v.unread|);
    hide Overwrite, Tail, Advance;
  }
}
