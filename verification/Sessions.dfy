/** Whole runs of a stream against a file without any buffer. */
module Sessions {
  import opened Bytes
  import opened Plainfile
  import opened Streams

  /** UnreadChar pushes a byte back. */
  datatype Op =
    | ReadChar
    | UnreadChar(c: byte)
    | WriteChar(c: byte)
    | ReadBlock(n: nat)
    | WriteBlock(data: seq<byte>)
    | SeekTo(offs: int, whence: Whence)
    | Tell
    | Flush

  /** What the caller sees of an operation. */
  datatype Seen = Code(r: int) | Block(data: seq<byte>)

  /** A file and a position, with what it was last used for and whether a byte was just pushed back. */
  datatype Plain = Plain(mode: Mode, bytes: seq<byte>, pos: nat, pushed: bool)

  function Readable(p: Plain): seq<byte> {
    if p.mode == Writing || p.mode == Ended || p.pos > |p.bytes| then [] else p.bytes[p.pos..]
  }

  /** Nothing was left to read: only a stream that was reading notices the end. */
  function AtEnd(p: Plain, n: nat): Plain {
    if p.mode == Writing || p.mode == Ended then p else Plain(Ended, p.bytes, p.pos + n, false)
  }

  function Step(op: Op, p: Plain): (Seen, Plain) {
    match op
    case ReadChar =>
      if Readable(p) == [] then (Code(-1), AtEnd(p, 0))
      else (Code(p.bytes[p.pos]), Plain(Reading, p.bytes, p.pos + 1, false))
    case UnreadChar(c) =>
      if p.pos == 0 then (Code(-1), p) else (Code((c + 128) % 256 - 128), Plain(Reading, p.bytes, p.pos - 1, true))
    case WriteChar(c) =>
      (Code(c), Plain(Writing, Overwrite(p.bytes, p.pos, [c]), p.pos + 1, false))
    case ReadBlock(n) =>
      if n == 0 then (Block([]), p)
      else if n <= |Readable(p)| then (Block(p.bytes[p.pos..p.pos + n]), Plain(Reading, p.bytes, p.pos + n, false))
      else (Block(Readable(p)), AtEnd(p, |Readable(p)|))
    case WriteBlock(data) =>
      (Code(|data|), if data == [] then p else Plain(Writing, Overwrite(p.bytes, p.pos, data), p.pos + |data|, false))
    case SeekTo(offs, whence) =>
      var t := match whence { case FromStart => offs case FromHere => p.pos + offs case FromEnd => |p.bytes| + offs };
      if t >= 0 then (Code(0), Plain(Idle, p.bytes, t, false))
      else (Code(-1), if p.mode == Writing then p.(mode := Idle) else p)
    case Tell => (Code(p.pos), p)
    case Flush => (Code(0), if p.mode == Writing then p.(mode := Idle) else p)
  }

  /**
   * What the standard asks of the caller: no write straight after a read, no push-back straight
   * after a write, and only one at a time, of the byte before the position. And what this library
   * needs besides: in an unbuffered stream no seek from here while a byte is pushed back, unless
   * it is to fail by more than one byte.
   */
  predicate Allowed(op: Op, p: Plain, unbuffered: bool) {
    && (op.WriteChar? || (op.WriteBlock? && op.data != []) ==> p.mode != Reading)
    && (op.UnreadChar? ==>
          p.mode != Writing && !p.pushed && 0 < p.pos <= |p.bytes| && op.c == p.bytes[p.pos - 1])
    && (op.WriteBlock? ==> |op.data| < 0x8000_0000)
    && (op.ReadBlock? ==> op.n < 0x8000_0000)
    && (op.SeekTo? && op.whence == FromHere && unbuffered && p.pushed ==> p.pos + op.offs + 1 < 0)
  }

  function Run(ops: seq<Op>, p: Plain): (seq<Seen>, Plain) {
    if ops == [] then ([], p)
    else
      var (o, p') := Step(ops[0], p);
      var (os, p'') := Run(ops[1..], p');
      ([o] + os, p'')
  }

  predicate AllowedRun(ops: seq<Op>, p: Plain, unbuffered: bool) {
    ops != [] ==> Allowed(ops[0], p, unbuffered) && AllowedRun(ops[1..], Step(ops[0], p).1, unbuffered)
  }

  function ViewOf(p: Plain): View { View(p.mode, p.bytes, p.pos, Tail(p.bytes, p.pos)) }

  /**
   * The stream looks like the plain file. Until a byte is pushed back a stream that was read
   * has room for one, and afterwards the byte is in the buffer.
   */
  ghost predicate Agree(p: Plain, f: Stream)
    reads f, f.file, f.buf
  {
    && f.Valid() && f.Clean() && f.Abs() == ViewOf(p)
    && (p.pushed ==> f.state == Rd && f.rp < f.wp)
    && (f.state == Rd && !p.pushed ==> f.rp > 0)
  }

  // ---- one operation ----

  lemma StepRead(p: Plain)
    ensures Step(ReadChar, p).0 == Code(GetSpec(ViewOf(p)).0) && GetSpec(ViewOf(p)).1 == ViewOf(Step(ReadChar, p).1)
    ensures p.mode == Reading || p.mode == Idle ==> !Step(ReadChar, p).1.pushed
  {
    if p.pos < |p.bytes| {
      assert p.bytes[p.pos..][1..] == p.bytes[p.pos + 1..];
    }
  }

  lemma StepBack(p: Plain, c: byte)
    requires Allowed(UnreadChar(c), p, false)
    ensures Step(UnreadChar(c), p).0 == Code((c + 128) % 256 - 128) && Step(UnreadChar(c), p).1.pushed
    ensures BackSpec(ViewOf(p), c) == ViewOf(Step(UnreadChar(c), p).1)
    ensures p.mode != Writing && !p.pushed && c % 256 == c && c as int != -1
  {
    assert [p.bytes[p.pos - 1]] + p.bytes[p.pos..] == p.bytes[p.pos - 1..];
  }

  lemma StepBlock(p: Plain, n: nat)
    ensures Step(ReadBlock(n), p).0 == Block(ReadSpec(ViewOf(p), n).0) && (n == 0 ==> Step(ReadBlock(n), p).1 == p)
    ensures ReadSpec(ViewOf(p), n).1 == ViewOf(Step(ReadBlock(n), p).1)
    ensures Step(ReadBlock(n), p).1.pushed ==> p.pushed && (n == 0 || p.mode == Writing || p.mode == Ended)
  {
    if p.pos <= |p.bytes| {
      assert p.bytes[p.pos..][|p.bytes| - p.pos..] == [] == Tail(p.bytes, |p.bytes|);
      if n <= |p.bytes| - p.pos {
        assert p.bytes[p.pos..][n..] == p.bytes[p.pos + n..] && p.bytes[p.pos..][..n] == p.bytes[p.pos..p.pos + n];
      }
    }
  }

  lemma StepWrite(p: Plain, data: seq<byte>)
    ensures WriteSpec(ViewOf(p), data) == ViewOf(Step(WriteBlock(data), p).1)
    ensures data != [] ==> !Step(WriteBlock(data), p).1.pushed
    ensures |data| == 1 ==> WriteSpec(ViewOf(p), data) == ViewOf(Step(WriteChar(data[0]), p).1)
    ensures |data| == 1 ==> !Step(WriteChar(data[0]), p).1.pushed
  {
    hide Overwrite;
    if |data| == 1 {
      assert data == [data[0]];
    }
  }

  lemma StepSeek(p: Plain, offs: int, whence: Whence)
    ensures Step(SeekTo(offs, whence), p).0 == Code(SeekSpec(ViewOf(p), offs, whence).0)
    ensures Step(SeekTo(offs, whence), p).1.pushed == (SeekSpec(ViewOf(p), offs, whence).0 == -1 && p.pushed)
    ensures SeekSpec(ViewOf(p), offs, whence).1 == ViewOf(Step(SeekTo(offs, whence), p).1)
    ensures FlushSpec(ViewOf(p)) == ViewOf(Step(Flush, p).1)
  {
  }

  /** The state tells what the stream was last used for. */
  lemma ModeIs(p: Plain, f: Stream)
    requires Agree(p, f)
    ensures f.Valid() && f.Clean() && f.state != Err && f.state != Closed && f.Abs() == ViewOf(p)
    ensures p.mode == if f.state == Rd then Reading else if f.state == Wr then Writing
                      else if f.state == End then Ended else Idle
    ensures (p.pushed ==> f.state == Rd && f.rp < f.wp) && (f.state == Rd && !p.pushed ==> f.rp > 0)
  {
  }

  lemma NowAgree(p: Plain, f: Stream)
    requires f.Valid() && (f.Clean() || f.state == Rd) && f.Abs() == ViewOf(p)
    requires (p.pushed ==> f.state == Rd && f.rp < f.wp) && (f.state == Rd && !p.pushed ==> f.rp > 0)
    ensures Agree(p, f)
  {
  }

  method DoRead(f: Stream, ghost p: Plain) returns (o: Seen)
    requires Agree(p, f)
    modifies f, f.file, f.buf
    ensures f.buf == old(f.buf) || fresh(f.buf)
    ensures f.file.faults == old(f.file.faults) + (if f.state == Err then 1 else 0)
    ensures f.state != Err ==> o == Step(ReadChar, p).0 && Agree(Step(ReadChar, p).1, f)
  {
    StepRead(p);
    ModeIs(p, f);
    hide Step, GetSpec, ViewOf, Stream.Abs, Stream.Shape, Stream.Pointers;
    var c := f.Getc();
    o := Code(c);
  }

  method DoUnread(f: Stream, c: byte, ghost p: Plain) returns (o: Seen)
    requires Agree(p, f) && Allowed(UnreadChar(c), p, false)
    modifies f, f.buf
    ensures f.buf == old(f.buf) || fresh(f.buf)
    ensures o == Step(UnreadChar(c), p).0 && Agree(Step(UnreadChar(c), p).1, f)
  {
    hide *;
    StepBack(p, c);
    ModeIs(p, f);
    var r := f.Ungetc(c);
    o := Code(r);
    NowAgree(Step(UnreadChar(c), p).1, f);
  }

  method DoBlock(f: Stream, n: nat, ghost p: Plain) returns (o: Seen)
    requires Agree(p, f) && n < 0x8000_0000
    modifies f, f.file, f.buf
    ensures f.buf == old(f.buf) || fresh(f.buf)
    ensures f.file.faults == old(f.file.faults) + (if f.state == Err then 1 else 0)
    ensures f.state != Err ==> o == Step(ReadBlock(n), p).0 && Agree(Step(ReadBlock(n), p).1, f)
  {
    hide *;
    StepBlock(p, n);
    ModeIs(p, f);
    assert 1 * n == n;
    var a := new byte[n];
    ghost var before := a[..];
    var count, _ := f.Fread(a, 1, n);
    o := Block(a[..if count <= n then count else n]);
    if f.state != Err {
      FilledFirst(before, a[..], ReadSpec(ViewOf(p), n).0);
      NowAgree(Step(ReadBlock(n), p).1, f);
    }
  }

  lemma FilledFirst(before: seq<byte>, after: seq<byte>, chunk: seq<byte>)
    requires Filled(before, after, 0, chunk)
    ensures |chunk| <= |after| && after[..|chunk|] == chunk
  {
  }

  method DoWrite(f: Stream, c: byte, ghost p: Plain) returns (o: Seen)
    requires Agree(p, f) && p.mode != Reading
    modifies f, f.file, f.buf
    ensures f.buf == old(f.buf) || fresh(f.buf)
    ensures f.file.faults == old(f.file.faults) + (if f.state == Err then 1 else 0)
    ensures f.state != Err ==> o == Step(WriteChar(c), p).0 && Agree(Step(WriteChar(c), p).1, f)
  {
    StepWrite(p, [c]);
    ModeIs(p, f);
    assert Step(WriteChar(c), p).0 == Code(c);
    hide Step, WriteSpec, ViewOf, Stream.Abs, Stream.Shape, Stream.Pointers;
    var r := f.Putc(c);
    o := Code(r);
  }

  /** A write that moves only some of the bytes counts as failed, but fwrite goes on after it. */
  method DoWriteBlock(f: Stream, data: seq<byte>, ghost p: Plain) returns (o: Seen)
    requires Agree(p, f) && Allowed(WriteBlock(data), p, false)
    modifies f, f.file, f.buf
    ensures f.buf == old(f.buf) || fresh(f.buf)
    ensures f.file.faults >= old(f.file.faults) + (if f.state == Err then 1 else 0)
    ensures f.state != Err ==> o == Step(WriteBlock(data), p).0 && Agree(Step(WriteBlock(data), p).1, f)
  {
    StepWrite(p, data);
    ModeIs(p, f);
    assert Step(WriteBlock(data), p).0 == Code(|data|) && (data == [] ==> Step(WriteBlock(data), p).1 == p);
    assert 1 * |data| == |data| && data[..|data|] == data;
    hide Step, WriteSpec, ViewOf, Stream.Abs, Stream.Shape, Stream.Pointers;
    var r := f.Fwrite(data, 1, |data|);
    o := Code(r);
  }

  /** An unbuffered stream is off by one while a byte is pushed back, and never else. */
  lemma DriftIs(p: Plain, f: Stream, whence: Whence)
    requires Agree(p, f)
    ensures f.Drift(whence) == if f.buf == f.unbuf && p.pushed && whence == FromHere then 1 else 0
  {
  }

  /** Only a seek can lose an error, that of the flush it begins with. */
  method DoSeek(f: Stream, offs: int, whence: Whence, ghost p: Plain) returns (o: Seen, lost: bool)
    requires Agree(p, f) && Allowed(SeekTo(offs, whence), p, f.buf == f.unbuf)
    modifies f, f.file, f.buf
    ensures f.buf == old(f.buf)
    ensures f.file.faults == old(f.file.faults) + (if lost then 1 else 0)
    ensures !lost ==>
              f.state != Err && o == Step(SeekTo(offs, whence), p).0 && Agree(Step(SeekTo(offs, whence), p).1, f)
  {
    StepSeek(p, offs, whence);
    DriftIs(p, f, whence);
    ModeIs(p, f);
    assert SeekSpec(ViewOf(p), offs + f.Drift(whence), whence) == SeekSpec(ViewOf(p), offs, whence);
    hide SeekSpec, Step, ViewOf, Stream.Abs, Stream.Pointers, Stream.Shape, Stream.Drift;
    var r;
    r, lost := f.Fseek(offs, whence);
    o := Code(r);
  }

  method DoTell(f: Stream, ghost p: Plain) returns (o: Seen)
    requires Agree(p, f)
    ensures o == Step(Tell, p).0 && Step(Tell, p).1 == p
  {
    o := Code(f.Ftell());
  }

  method DoFlush(f: Stream, ghost p: Plain) returns (o: Seen)
    requires Agree(p, f)
    modifies f, f.file, f.buf
    ensures f.buf == old(f.buf)
    ensures f.file.faults == old(f.file.faults) + (if f.state == Err then 1 else 0)
    ensures f.state != Err ==> o == Step(Flush, p).0 && Agree(Step(Flush, p).1, f)
  {
    StepSeek(p, 0, FromHere);
    assert Step(Flush, p).0 == Code(0) && Step(Flush, p).1.pushed == p.pushed;
    hide Step, FlushSpec, ViewOf, Stream.Abs, Stream.Shape, Stream.Pointers;
    var r := f.Fflush();
    o := Code(r);
  }

  /** One operation. */
  method Do(f: Stream, op: Op, ghost p: Plain, ghost unbuffered: bool) returns (o: Seen, lost: bool)
    requires Agree(p, f) && Allowed(op, p, unbuffered) && (f.buf == f.unbuf ==> unbuffered)
    modifies f, f.file, f.buf
    ensures f.buf == old(f.buf) || fresh(f.buf)
    ensures f.file.faults >= old(f.file.faults) + (if lost || f.state == Err then 1 else 0)
    ensures lost || f.state == Err || (o == Step(op, p).0 && Agree(Step(op, p).1, f))
  {
    assert f.state != Err;
    hide Step, Stream.Abs, Stream.Shape, Stream.Pointers, Stream.Valid, ViewOf, Agree;
    lost := false;
    match op
    case ReadChar => o := DoRead(f, p);
    case UnreadChar(c) => o := DoUnread(f, c, p);
    case WriteChar(c) => o := DoWrite(f, c, p);
    case ReadBlock(n) => o := DoBlock(f, n, p);
    case WriteBlock(data) => o := DoWriteBlock(f, data, p);
    case SeekTo(offs, whence) => o, lost := DoSeek(f, offs, whence, p);
    case Tell => o := DoTell(f, p);
    case Flush => o := DoFlush(f, p);
  }

  /** The first i operations were run, showing `seen` and leading to `now`. */
  ghost predicate Prefix(ops: seq<Op>, p: Plain, unbuffered: bool, i: nat, seen: seq<Seen>, now: Plain) {
    && i <= |ops| && AllowedRun(ops[i..], now, unbuffered)
    && Run(ops, p) == (seen + Run(ops[i..], now).0, Run(ops[i..], now).1)
  }

  lemma PrefixStart(ops: seq<Op>, p: Plain, unbuffered: bool)
    requires AllowedRun(ops, p, unbuffered)
    ensures Prefix(ops, p, unbuffered, 0, [], p)
  {
    assert ops[0..] == ops && [] + Run(ops, p).0 == Run(ops, p).0;
  }

  lemma PrefixStep(ops: seq<Op>, p: Plain, unbuffered: bool, i: nat, seen: seq<Seen>, now: Plain)
    requires i < |ops| && Prefix(ops, p, unbuffered, i, seen, now)
    ensures Allowed(ops[i], now, unbuffered)
    ensures Prefix(ops, p, unbuffered, i + 1, seen + [Step(ops[i], now).0], Step(ops[i], now).1)
  {
    assert ops[i..][1..] == ops[i + 1..] && ops[i..][0] == ops[i];
    var o, rest := Step(ops[i], now).0, Run(ops[i + 1..], Step(ops[i], now).1).0;
    assert seen + ([o] + rest) == (seen + [o]) + rest;
  }

  lemma PrefixEnd(ops: seq<Op>, p: Plain, unbuffered: bool, seen: seq<Seen>, now: Plain)
    requires Prefix(ops, p, unbuffered, |ops|, seen, now)
    ensures Run(ops, p) == (seen, now)
  {
    assert ops[|ops|..] == [] && seen + [] == seen;
  }

  /**
   * The main theorem: whatever the buffering and however the system cuts up reads, a run in
   * which no read or write of the system fails meets no error, shows its caller what the file
   * without a buffer would, and leaves the same bytes (counting those still in the buffer) and
   * the same position. A failure that goes unnoticed does not change that.
   */
  method RunAll(f: Stream, ops: seq<Op>, ghost p: Plain, ghost unbuffered: bool) returns (seen: seq<Seen>, lost: bool)
    requires Agree(p, f) && AllowedRun(ops, p, unbuffered) && (f.buf == f.unbuf ==> unbuffered)
    modifies f, f.file, f.buf
    ensures if lost || f.state == Err then f.file.faults > old(f.file.faults)
            else seen == Run(ops, p).0 && Agree(Run(ops, p).1, f)
    ensures f.buf == old(f.buf) || fresh(f.buf)
    ensures f.file.faults >= old(f.file.faults)
  {
    assert f.state != Err;
    hide *;
    seen, lost := [], false;
    var i := 0;
    ghost var now, b0, k := p, f.buf, f.file.faults;
    PrefixStart(ops, p, unbuffered);
    while i < |ops| && f.state != Err
      invariant 0 <= i <= |ops|
      invariant f.buf == b0 || fresh(f.buf)
      invariant f.file.faults >= k
      invariant if f.state == Err then f.file.faults > k else Agree(now, f) && Prefix(ops, p, unbuffered, i, seen, now)
    {
      PrefixStep(ops, p, unbuffered, i, seen, now);
      var o;
      o, lost := Do(f, ops[i], now, unbuffered);
      if lost {
        return;
      }
      now := Step(ops[i], now).1;
      seen := seen + [o];
      i := i + 1;
    }
    if f.state != Err {
      PrefixEnd(ops, p, unbuffered, seen, now);
    }
  }

  /** And once the stream is closed the file itself holds what the plain file would. */
  method RunAndClose(f: Stream, ops: seq<Op>, ghost p: Plain, ghost unbuffered: bool) returns (seen: seq<Seen>, r: int)
    requires Agree(p, f) && AllowedRun(ops, p, unbuffered) && (f.buf == f.unbuf ==> unbuffered)
    modifies f, f.file, f.buf
    ensures f.file.faults == old(f.file.faults) ==>
              r == 0 && seen == Run(ops, p).0 && f.file.contents == Run(ops, p).1.bytes
  {
    var lost;
    seen, lost := RunAll(f, ops, p, unbuffered);
    r := EOF;
    if !lost && f.state != Err {
      hide Run, Stream.Abs, Stream.Pointers, Stream.Shape;
      r := f.Fclose();
    }
  }

  /**
   * Why the last rule of `Allowed` is there: while a byte is pushed back an unbuffered stream
   * goes one byte too far, and does what it should exactly when even that is before the start.
   */
  method SeekAfterPushBack(f: Stream, offs: int, ghost p: Plain) returns (o: Seen)
    requires Agree(p, f) && f.buf == f.unbuf && p.pushed
    modifies f, f.file
    ensures f.Valid() && f.Clean() && f.file.faults == old(f.file.faults)
    ensures o == Code(SeekSpec(ViewOf(p), offs + 1, FromHere).0) && f.Abs() == SeekSpec(ViewOf(p), offs + 1, FromHere).1
    ensures o == Step(SeekTo(offs, FromHere), p).0 && Agree(Step(SeekTo(offs, FromHere), p).1, f)
            <==> p.pos + offs + 1 < 0
  {
    DriftIs(p, f, FromHere);
    ModeIs(p, f);
    StepSeek(p, offs, FromHere);
    OneTooFar(p, offs);
    hide SeekSpec, Step, ViewOf, Stream.Abs, Stream.Pointers, Stream.Shape, Stream.Drift;
    var r, lost := f.Fseek(offs, FromHere);
    o := Code(r);
  }

  lemma OneTooFar(p: Plain, offs: int)
    requires p.mode == Reading
    ensures SeekSpec(ViewOf(p), offs + 1, FromHere) == SeekSpec(ViewOf(p), offs, FromHere) <==> p.pos + offs + 1 < 0
    ensures p.pos + offs + 1 < 0 ==> SeekSpec(ViewOf(p), offs, FromHere).0 == -1
  {
  }
}
