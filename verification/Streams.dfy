/**
 * The buffered stream: one buffer, three pointers into it, seven states and three ways of
 * buffering, over a file that is read and written in pieces of the system's choosing.
 */
module Streams {
  import opened Bytes
  import opened Plainfile

  const BUFSIZ: nat := 4096
  const BIGN: nat := BUFSIZ / 2
  const NEWLINE: byte := 10

  datatype State = Closed | Open | RdWr | Rd | Wr | Err | End

  datatype Buffering = Full | Line | Unbuffered

  /**
   * An open file of the system: its bytes, where the next read or write happens, and how many
   * reads and writes have failed so far.
   */
  class OsFile {
    var contents: seq<byte>
    var pos: nat
    ghost var faults: nat

    constructor (c: seq<byte>)
      ensures contents == c && pos == 0 && faults == 0
    {
      contents, pos, faults := c, 0, 0;
    }

    /** Reads up to n bytes, 0 only at the end and -1 on an error. */
    method Read(a: array<byte>, at: nat, n: nat) returns (r: int)
      requires n > 0 && at + n <= a.Length
      modifies this`pos, this`faults, a
      ensures -1 <= r <= n && faults == old(faults) + (if r == -1 then 1 else 0)
      ensures r == 0 ==> pos == old(pos) && pos >= |contents|
      ensures r == -1 ==> pos == old(pos)
      ensures r > 0 ==> pos == old(pos) + r <= |contents|
      ensures r > 0 ==> Took(old(a[..]), a[..], at, r, contents, old(pos))
      ensures r <= 0 ==> a[..] == old(a[..])
    {
      var fails: bool := *;
      if fails {
        faults := faults + 1;
        return -1;
      }
      if pos >= |contents| {
        return 0;
      }
      var d: nat :| 1 <= d <= n && pos + d <= |contents|;
      forall i | 0 <= i < d {
        a[at + i] := contents[pos + i];
      }
      pos := pos + d;
      r := d;
    }

    /** Writes some of the bytes, all of them if nothing goes wrong. */
    method Write(data: seq<byte>) returns (r: int)
      modifies this
      ensures -1 <= r <= |data| && faults == old(faults) + (if r < |data| then 1 else 0)
      ensures pos == old(pos) + (if r > 0 then r else 0)
      ensures contents == Overwrite(old(contents), old(pos), if r > 0 then data[..r] else [])
    {
      r :| -1 <= r <= |data|;
      if r > 0 {
        contents := Overwrite(contents, pos, data[..r]);
        pos := pos + r;
      }
      if r < |data| {
        faults := faults + 1;
      }
    }

    function Target(offs: int, whence: Whence): int reads this`pos, this`contents {
      match whence
      case FromStart => offs
      case FromHere => pos + offs
      case FromEnd => |contents| + offs
    }

    /** Moves the position, unless it would be negative. */
    method Seek(offs: int, whence: Whence) returns (r: int)
      modifies this`pos
      ensures if old(Target(offs, whence)) < 0 then r == -1 && pos == old(pos)
              else r == pos == old(Target(offs, whence))
    {
      var t := Target(offs, whence);
      if t < 0 {
        return -1;
      }
      pos := t;
      r := t;
    }

    /** Gives up the descriptor. */
    method Close() returns (r: int)
      modifies this`faults
      ensures r == 0 || r == -1
      ensures faults == old(faults) + (if r == -1 then 1 else 0)
    {
      r :| r == 0 || r == -1;
      if r == -1 {
        faults := faults + 1;
      }
    }
  }

  /** `memmove` of d bytes. */
  method Move(dst: array<byte>, at: nat, src: array<byte>, from: nat, d: nat)
    requires at + d <= dst.Length && from + d <= src.Length && dst != src
    modifies dst
    ensures Filled(old(dst[..]), dst[..], at, old(src[from..from + d]))
  {
    forall i | 0 <= i < d {
      dst[at + i] := src[from + i];
    }
  }

  class Stream {
    const file: OsFile
    const unbuf: array<byte>
    const nobuf: array<byte>
    const tty: bool
    var line: bool
    var state: State
    var buf: array<byte>
    var rp: nat
    var wp: nat
    var lp: nat
    var bufl: nat
    /** The bytes that putc and fwrite have taken. */
    ghost var accepted: nat

    /** A stream just opened; until its first use `nobuf` stands in for the missing buffer. */
    constructor (f: OsFile, terminal: bool)
      ensures Valid() && Clean() && file == f && state == Open && fresh(unbuf) && fresh(buf) && buf != unbuf
      ensures Abs() == View(Idle, f.contents, f.pos, Tail(f.contents, f.pos))
    {
      file, tty, line, state := f, terminal, false, Open;
      unbuf := new byte[1];
      nobuf := new byte[1];
      new;
      buf, rp, wp, lp, bufl := nobuf, 0, 0, 0, 1;
    }

    ghost function Cap(): nat reads this`buf, this`bufl { if buf == unbuf then 1 else bufl }

    /** No error has been met. */
    ghost predicate Clean() reads this`state { state != Err && state != Closed }

    /** The buffer has room for what is said of it. */
    ghost predicate Shape() reads this`buf, this`bufl, this`line {
      && unbuf.Length == 1 && 1 <= Cap() <= buf.Length
      && (buf == unbuf ==> bufl == 0 && !line)
    }

    ghost predicate InBounds() reads this { Shape() && rp <= Cap() && wp <= Cap() && lp <= Cap() }

    ghost predicate Valid() reads this, file, buf {
      && InBounds()
      && (Clean() ==> Pointers())
    }

    /** The stated invariant of the pointers, and what else keeps the buffer and the file in step. */
    ghost predicate Pointers()
      reads this, file, buf
      requires InBounds()
    {
      && (rp < wp ==> state == Rd) && (wp < rp ==> state == Wr)
      && (state == Rd ==> wp > 0)
      && (state == Open ==> rp == wp == 0)
      && (state == End ==> file.pos >= |file.contents|)
      && (state == Wr ==>
            if buf == unbuf then rp == wp == 0
            else if line then wp == rp == bufl && NEWLINE !in buf[..lp]
            else rp == bufl || rp == wp == 0)
    }

    /** The bytes written to the stream that have not reached the file. */
    ghost function Pending(): seq<byte>
      reads this, buf
      requires InBounds()
    {
      if state != Wr then [] else if line then buf[..lp] else buf[..wp]
    }

    /** The stream seen from outside. */
    ghost function Abs(): View
      reads this, file, buf
      requires InBounds()
    {
      if state == Rd && rp <= wp then
        View(Reading, file.contents, file.pos - (wp - rp), buf[rp..wp] + Tail(file.contents, file.pos))
      else
        var b := Overwrite(file.contents, file.pos, Pending());
        var p := file.pos + |Pending()|;
        View(if state == Wr then Writing else if state == End then Ended else Idle, b, p, Tail(b, p))
    }

    // ---- buffering ----

    /** `setvbuf`: the buffering is chosen once, before the first use. */
    method Setvbuf(b: array?<byte>, mode: Buffering, size: nat) returns (r: int)
      requires Valid()
      requires mode != Unbuffered ==> size >= 1 && (b != null ==> b != unbuf && size <= b.Length)
      modifies this
      ensures Valid() && accepted == old(accepted)
      ensures if old(state) == Open then r == 0 && state == RdWr else r == -1 && state == Err
      ensures old(state) == Open ==> Clean() && Abs() == old(Abs())
      ensures old(state) == Open ==> line == (mode == Line) && (buf == unbuf <==> mode == Unbuffered)
      ensures old(state) == Open && mode != Unbuffered ==> bufl == size && (if b == null then fresh(buf) else buf == b)
    {
      if state != Open {
        state := Err;
        return -1;
      }
      state := RdWr;
      match mode {
        case Unbuffered =>
          buf := unbuf;
          bufl := 0;
          line := false;
        case _ =>
          line := mode == Line;
          if b == null {
            buf := new byte[size];
          } else {
            buf := b;
          }
          bufl := size;
      }
      rp, wp, lp := 0, 0, 0;
      r := 0;
    }

    /** `_IO_setvbuf`: the buffering of a stream that did not choose one. */
    method DefaultBuffer()
      requires Valid() && state == Open
      modifies this
      ensures Valid() && state == RdWr && fresh(buf) && buf != unbuf && bufl == 4096 && line == tty
      ensures Clean() && Abs() == old(Abs()) && accepted == old(accepted)
    {
      if tty {
        var _ := Setvbuf(null, Line, BUFSIZ);
      } else {
        var _ := Setvbuf(null, Full, BUFSIZ);
      }
    }

    // ---- reading ----

    lemma Opened()
      requires Valid()
      ensures Shape() && rp <= Cap() && wp <= Cap() && lp <= Cap()
      ensures Clean() ==> (rp < wp ==> state == Rd) && (wp < rp ==> state == Wr)
      ensures state == Open ==> rp == wp == 0
    {
    }

    /** Nothing is buffered. */
    lemma AtRest()
      requires Shape() && rp == wp <= Cap() && lp <= Cap()
      requires (state == Rd && rp > 0) || state == RdWr || (state == End && file.pos >= |file.contents|)
      ensures Valid()
      ensures Abs() == View(if state == Rd then Reading else if state == End then Ended else Idle,
                            file.contents, file.pos, Tail(file.contents, file.pos))
    {
      assert buf[rp..wp] == [];
    }

    /** The buffer holds what the file has before its position. */
    lemma Buffered(c: seq<byte>, pos: nat)
      requires Shape() && rp <= wp <= Cap() && lp <= Cap() && state == Rd && wp > 0 && file.contents == c
      requires pos + wp == file.pos <= |c| && buf[..wp] == c[pos..file.pos]
      ensures Valid() && Abs() == View(Reading, c, pos + rp, Tail(c, pos + rp))
    {
      TailSplit(c, pos + rp, wp - rp);
      assert buf[rp..wp] == buf[..wp][rp..] == c[pos + rp..file.pos];
    }

    /** The part of `_IO_getc` that reads. */
    method Refill() returns (c: int)
      requires Valid() && (state == RdWr || state == Rd) && rp == wp
      modifies this`state, this`rp, this`wp, file`pos, file`faults, buf
      ensures Valid() && (Clean() || state == Err)
      ensures file.faults == old(file.faults) + (if Clean() then 0 else 1)
      ensures Clean() ==> (c, Abs()) == GetSpec(old(Abs()))
      ensures -1 <= c < 256 && (c == -1 ==> state != Rd) && (Clean() && c != -1 ==> state == Rd && rp > 0)
      ensures !Clean() ==> c == -1
      ensures old(state) != Open ==> buf == old(buf)
    {
      Opened();
      AtRest();
      Room();
      ghost var v, pos0, f0, b0 := Abs(), file.pos, file.contents, buf[..];
      GetFromFile(v);
      hide Valid, Shape, GetSpec, Tail, Overwrite, Took, Abs, Pointers;
      var n := if buf == unbuf then 1 else bufl;
      var cnt := file.Read(buf, 0, n);
      if cnt <= 0 {
        Stop(cnt);
        c := EOF;
      } else {
        c := TakeFirst(cnt, f0, pos0, b0);
      }
    }

    method Stop(cnt: int)
      requires Shape() && rp == wp <= Cap() && lp <= Cap() && (cnt == 0 ==> file.pos >= |file.contents|)
      modifies this`state
      ensures Valid() && state == if cnt == 0 then End else Err
      ensures cnt == 0 ==> Abs() == View(Ended, file.contents, file.pos, Tail(file.contents, file.pos))
    {
      if cnt == 0 {
        state := End;
        AtRest();
      } else {
        state := Err;
      }
    }

    method TakeFirst(cnt: nat, ghost f0: seq<byte>, ghost pos0: nat, ghost b0: seq<byte>) returns (c: byte)
      requires Shape() && 0 < cnt <= Cap() && lp <= Cap() && file.contents == f0
      requires pos0 + cnt == file.pos && Took(b0, buf[..], 0, cnt, f0, pos0)
      modifies this`state, this`rp, this`wp
      ensures Valid() && state == Rd && rp > 0 && c == f0[pos0]
      ensures Abs() == View(Reading, f0, pos0 + 1, Tail(f0, pos0 + 1))
    {
      hide Tail, Overwrite, Took;
      TookFirst(b0, buf[..], cnt, f0, pos0);
      assert buf[..cnt] == buf[..][..cnt] && buf[..cnt][0] == f0[pos0];
      state := Rd;
      rp := 0;
      wp := cnt;
      c := buf[rp];
      rp := rp + 1;
      Buffered(f0, pos0);
    }

    lemma Room()
      requires Shape()
      ensures 1 <= Cap() <= buf.Length && unbuf.Length == 1 && Cap() == if buf == unbuf then 1 else bufl
    {
    }

    /** `_IO_getc`. */
    method FillAndGet() returns (c: int)
      requires Valid() && (Clean() ==> wp <= rp)
      modifies this, file, buf
      ensures Valid() && file.contents == old(file.contents) && (buf == old(buf) || fresh(buf))
      ensures if old(Clean()) then Clean() || state == Err else state == old(state)
      ensures file.faults == old(file.faults) + (if old(Clean()) && state == Err then 1 else 0)
      ensures Clean() ==> (c, Abs()) == GetSpec(old(Abs()))
      ensures -1 <= c < 256 && (c == -1 ==> state != Rd) && (Clean() && c != -1 ==> state == Rd && rp > 0)
      ensures !Clean() ==> c == -1
      ensures old(state) != Open ==> buf == old(buf)
    {
      if state == Open {
        DefaultBuffer();
      } else if state != RdWr && state != Rd {
        return EOF;
      }
      hide Abs;
      c := Refill();
    }

    /** The `getc` macro. It fails exactly when its read does. */
    method Getc() returns (c: int)
      requires Valid()
      modifies this, file, buf
      ensures Valid() && file.contents == old(file.contents) && (buf == old(buf) || fresh(buf))
      ensures if old(Clean()) then Clean() || state == Err else state == old(state)
      ensures file.faults == old(file.faults) + (if old(Clean()) && state == Err then 1 else 0)
      ensures Clean() ==> (c, Abs()) == GetSpec(old(Abs()))
      ensures -1 <= c < 256 && (c == -1 ==> state != Rd) && (Clean() && c != -1 ==> state == Rd && rp > 0)
      ensures old(Clean()) && !Clean() ==> c == -1
      ensures old(state) != Open ==> buf == old(buf)
    {
      if rp >= wp {
        c := FillAndGet();
      } else {
        ghost var rest := Tail(file.contents, file.pos);
        assert Clean() ==> (buf[rp..wp] + rest)[1..] == buf[rp + 1..wp] + rest;
        c := buf[rp];
        rp := rp + 1;
      }
    }

    // ---- writing ----

    lemma WritingIs()
      requires InBounds() && state == Wr
      ensures Abs() == Shown(file.contents, file.pos, Pending())
      ensures |Pending()| == if line then lp else wp
    {
    }

    /** Writes out the bytes waiting in the buffer; the pointers are the caller's business. */
    method Drain(cnt: nat) returns (ok: bool)
      requires InBounds() && state == Wr && cnt == if line then lp else wp
      modifies file, this`state
      ensures InBounds() && if ok then state == Wr else state == Err && Valid()
      ensures file.faults == old(file.faults) + (if ok then 0 else 1)
      ensures ok ==> Shown(file.contents, file.pos, []) == old(Abs())
    {
      WritingIs();
      ghost var c0, p0, pending := file.contents, file.pos, Pending();
      ShownDrain(c0, p0, pending);
      assert pending == buf[..cnt];
      hide Overwrite, Shown, Abs, Pending, Shape;
      ok := true;
      if cnt != 0 {
        var r := file.Write(buf[..cnt]);
        assert pending[..cnt] == pending;
        if r != cnt {
          state := Err;
          ok := false;
        }
      }
    }

    /** The pointers of a stream that turns to writing. */
    method StartWriting()
      requires Valid() && (state == RdWr || state == End)
      modifies this`rp, this`wp, this`lp, this`state
      ensures Valid() && state == Wr && Abs() == Shown(file.contents, file.pos, [])
      ensures old(Abs()).bytes == file.contents && old(Abs()).pos == file.pos
    {
      AtRest();
      rp := bufl;
      if line {
        wp := rp;
        lp := 0;
      } else {
        wp := 0;
      }
      state := Wr;
      assert buf[..0] == [];
    }

    /** `_IO_putc` with full buffering. */
    method PutFull(c: byte) returns (ok: bool)
      requires Valid() && state == Wr && !line && buf != unbuf
      modifies this`rp, this`wp, this`state, file, buf
      ensures Valid() && (if ok then state == Wr else state == Err)
      ensures file.faults == old(file.faults) + (if ok then 0 else 1)
      ensures ok ==> Abs() == WriteSpec(old(Abs()), [c])
    {
      Opened();
      WritingIs();
      ghost var v, p := Abs(), Pending();
      hide Overwrite, Shown, Abs, WriteSpec;
      ok := true;
      if wp == rp {
        ok := Drain(wp);
        if !ok {
          return;
        }
        wp := 0;
        rp := bufl;
        p := [];
      }
      assert v == Shown(file.contents, file.pos, p) && p == buf[..wp];
      buf[wp] := c;
      wp := wp + 1;
      assert Pending() == p + [c];
      ShownParts(v, file.contents, file.pos, p);
      ShownWrite(v, file.contents, file.pos, p, [c]);
      WritingIs();
    }

    /** Writes out what line buffering has kept. */
    method SendLine() returns (ok: bool)
      requires InBounds() && state == Wr && line && rp == wp == bufl
      modifies this`lp, this`state, file
      ensures Valid() && if ok then state == Wr && lp == 0 else state == Err
      ensures file.faults == old(file.faults) + (if ok then 0 else 1)
      ensures ok ==> Abs() == old(Abs())
    {
      WritingIs();
      hide Overwrite, Shown, Abs;
      ok := Drain(lp);
      if ok {
        lp := 0;
        assert Pending() == [];
        WritingIs();
      }
    }

    /** `_IO_putc` with line buffering: a newline sends the line off. */
    method PutLine(c: byte) returns (ok: bool)
      requires Valid() && state == Wr && line
      modifies this`lp, this`state, file, buf
      ensures Valid() && (if ok then state == Wr else state == Err)
      ensures ok ==> lp == if c == 10 then 0 else if old(lp) == bufl then 1 else old(lp) + 1
      ensures file.faults == old(file.faults) + (if ok then 0 else 1)
      ensures ok ==> Abs() == WriteSpec(old(Abs()), [c])
    {
      Opened();
      ghost var v := Abs();
      hide Overwrite, Shown, Abs, WriteSpec;
      ok := true;
      if lp == rp {
        ok := SendLine();
        if !ok {
          return;
        }
      }
      WritingIs();
      ghost var p := Pending();
      ShownParts(v, file.contents, file.pos, p);
      ShownWrite(v, file.contents, file.pos, p, [c]);
      buf[lp] := c;
      lp := lp + 1;
      assert Pending() == p + [c];
      WritingIs();
      if c == NEWLINE {
        ok := SendLine();
      }
    }

    /** `_IO_putc` without buffering. */
    method PutThrough(c: byte) returns (ok: bool)
      requires Valid() && state == Wr && buf == unbuf
      modifies this`state, file, buf
      ensures Valid() && if ok then state == Wr else state == Err
      ensures file.faults == old(file.faults) + (if ok then 0 else 1)
      ensures ok ==> Abs() == WriteSpec(old(Abs()), [c])
    {
      Opened();
      WritingIs();
      ghost var v, c0, p0 := Abs(), file.contents, file.pos;
      assert Pending() == [];
      hide Overwrite, Shown, Abs, WriteSpec, Pending;
      buf[0] := c;
      assert buf[..1] == [c];
      var r := file.Write(buf[..1]);
      ok := r == 1;
      if ok {
        assert [c][..1] == [c];
        Through(v, c0, p0, c);
      } else {
        state := Err;
      }
    }

    lemma Through(v: View, c0: seq<byte>, p0: nat, c: byte)
      requires InBounds() && state == Wr && buf == unbuf && rp == wp == 0
      requires v == Shown(c0, p0, []) && file.contents == Overwrite(c0, p0, [c]) && file.pos == p0 + 1
      ensures Valid() && Abs() == WriteSpec(v, [c])
    {
      assert Pending() == [] && [] + [c] == [c];
      WritingIs();
      hide Overwrite, Abs, WriteSpec, Pending;
      ShownParts(v, c0, p0, []);
      ShownWrite(v, c0, p0, [], [c]);
      ShownDrain(c0, p0, [c]);
    }

    /** `_IO_putc`. It fails exactly when its write does, or right after a read. */
    method FlushAndPut(c: int) returns (r: int)
      requires Valid() && (Clean() ==> rp <= wp)
      modifies this, file, buf
      ensures Valid() && (buf == old(buf) || fresh(buf))
      ensures file.faults == old(file.faults) + (if old(Clean()) && old(state) != Rd && r == -1 then 1 else 0)
      ensures Clean() <==> old(Clean()) && r != -1
      ensures r != -1 ==> r == c % 256 && state == Wr && old(state) != Rd && Abs() == WriteSpec(old(Abs()), [c % 256])
      ensures r == -1 ==> state == if old(Clean()) then Err else old(state)
      ensures accepted == old(accepted) + (if r == -1 then 0 else 1)
    {
      ghost var v := Abs();
      hide Abs, WriteSpec, Pointers, Shape;
      if state == Rd {
        state := Err;
        return EOF;
      }
      if state == Err || state == Closed {
        return EOF;
      }
      if state != Wr {
        TurnToWriting();
      }
      SameWrite(v, Abs(), [c % 256]);
      var ok := PutByte(c % 256);
      r := EOF;
      if ok {
        r := c % 256;
        Accept(1);
      }
    }

    ghost method Accept(d: nat)
      requires Valid()
      modifies this`accepted
      ensures Valid() && Abs() == old(Abs()) && accepted == old(accepted) + d
    {
      accepted := accepted + d;
    }

    /** The buffer and its pointers before the first byte written. */
    method TurnToWriting()
      requires Valid() && (state == Open || state == RdWr || state == End)
      modifies this
      ensures Valid() && state == Wr && (buf == old(buf) || fresh(buf)) && accepted == old(accepted)
      ensures Abs().bytes == old(Abs()).bytes && Abs().pos == old(Abs()).pos >= 0
    {
      if state == Open {
        DefaultBuffer();
      }
      StartWriting();
      ShownParts(Abs(), file.contents, file.pos, []);
    }

    method PutByte(c: byte) returns (ok: bool)
      requires Valid() && state == Wr
      modifies this`rp, this`wp, this`lp, this`state, file, buf
      ensures Valid() && if ok then state == Wr else state == Err
      ensures file.faults == old(file.faults) + (if ok then 0 else 1)
      ensures ok ==> Abs() == WriteSpec(old(Abs()), [c])
    {
      hide *;
      if line {
        ok := PutLine(c);
      } else if buf == unbuf {
        ok := PutThrough(c);
      } else {
        ok := PutFull(c);
      }
    }

    /** The `putc` macro. */
    method Putc(c: int) returns (r: int)
      requires Valid()
      modifies this, file, buf
      ensures Valid() && (buf == old(buf) || fresh(buf))
      ensures file.faults == old(file.faults) + (if old(Clean()) && old(state) != Rd && r == -1 then 1 else 0)
      ensures old(Clean()) ==> (Clean() <==> r != -1)
      ensures !old(Clean()) ==> !Clean()
      ensures Clean() ==> r == c % 256 && state == Wr && old(state) != Rd && Abs() == WriteSpec(old(Abs()), [c % 256])
      ensures old(Clean()) && r == -1 ==> state == Err
      ensures accepted == old(accepted) + (if r == -1 then 0 else 1)
    {
      if wp >= rp {
        r := FlushAndPut(c);
      } else {
        Store(c % 256);
        Accept(1);
        r := c % 256;
      }
    }

    /** The byte a `putc` macro stores without a call. */
    method Store(c: byte)
      requires Valid() && wp < rp
      modifies this`wp, buf
      ensures Valid()
      ensures Clean() ==> state == Wr && Abs() == WriteSpec(old(Abs()), [c])
    {
      ghost var p := Pending();
      if Clean() {
        WritingIs();
        ShownParts(Abs(), file.contents, file.pos, p);
        ShownWrite(Abs(), file.contents, file.pos, p, [c]);
      }
      hide Overwrite, Shown, Abs, WriteSpec;
      buf[wp] := c;
      wp := wp + 1;
      if Clean() {
        assert Pending() == p + [c];
        WritingIs();
      }
    }

    // ---- pushing back, flushing, seeking ----

    /** `ungetc`. In Clean states it fails only while writing, or when the buffer has no room before what is unread. */
    method Ungetc(c: int) returns (r: int)
      requires Valid()
      modifies this, buf
      ensures Valid() && (buf == old(buf) || fresh(buf))
      ensures (old(state) == Rd && old(rp) == 0) || c == -1 ==> r == -1 && state == old(state) && Abs() == old(Abs())
      ensures old(state) == Wr && c != -1 ==> r == -1 && state == Err
      ensures old(Clean()) && c != -1 && old(state) != Wr && (old(state) == Rd ==> old(rp) > 0) ==>
                -128 <= r < 128 && (r - c) % 256 == 0
                && state == Rd && rp < wp && Abs() == BackSpec(old(Abs()), c % 256)
      ensures !old(Clean()) ==> state == old(state)
      ensures old(state) == Rd && old(rp) > 0 && c != -1 ==> rp == old(rp) - 1 && wp == old(wp) && buf == old(buf)
    {
      if c == EOF {
        return EOF;
      }
      if state == Wr {
        state := Err;
        return EOF;
      }
      if state == Closed || state == Err {
        return EOF;
      }
      ghost var v := Abs();
      if state != Rd {
        StartBack();
      }
      if rp == 0 {
        return EOF;
      }
      assert BackSpec(v, c % 256) == BackSpec(Abs(), c % 256);
      hide Abs, Tail, Overwrite, BackSpec;
      Back(c % 256);
      var b := c % 256;
      r := if b < 128 then b else b - 256;
    }

    /** A push-back that is not after a read leaves the whole buffer free for more. */
    method StartBack()
      requires Valid() && (state == Open || state == RdWr || state == End)
      modifies this, buf
      ensures Valid() && (buf == old(buf) || fresh(buf)) && state == Rd && rp > 0
      ensures Abs() == old(Abs()).(mode := Reading)
    {
      if state == Open {
        DefaultBuffer();
      }
      Opened();
      AtRest();
      hide Abs, Tail, Overwrite;
      rp := if bufl == 0 then 1 else bufl;
      wp := rp;
      state := Rd;
      AtRest();
    }

    method Back(c: byte)
      requires Valid() && state == Rd && rp > 0
      modifies this`rp, buf
      ensures Valid() && rp == old(rp) - 1 < wp && Abs() == BackSpec(old(Abs()), c)
    {
      Opened();
      hide Tail, Overwrite;
      ghost var rest := Tail(file.contents, file.pos);
      ghost var have := buf[rp..wp];
      rp := rp - 1;
      buf[rp] := c;
      assert buf[rp..wp] == [c] + have;
      assert [c] + have + rest == [c] + (have + rest);
    }

    /** `_fflush` of one stream. It fails exactly when its write does, or failed before. */
    method Fflush() returns (r: int)
      requires Valid()
      modifies this`rp, this`wp, this`state, file
      ensures Valid() && (r == -1 || r == 0)
      ensures r == 0 <==> Clean()
      ensures file.faults == old(file.faults) + (if old(Clean()) && r == -1 then 1 else 0)
      ensures r == 0 ==> old(Clean()) && Abs() == FlushSpec(old(Abs())) && state != Wr
      ensures old(state) == Wr && r == 0 ==>
                state == RdWr && file.contents == old(Abs()).bytes && file.pos == old(Abs()).pos
      ensures old(state) != Wr ==> state == old(state) && rp == old(rp) && wp == old(wp)
      ensures old(state) != Wr ==> file.contents == old(file.contents) && file.pos == old(file.pos)
      ensures old(Clean()) && r == -1 ==> state == Err
    {
      match state
      case Closed => return EOF;
      case Err => return EOF;
      case Wr =>
        r := FlushWriting();
      case _ => return 0;
    }

    method FlushWriting() returns (r: int)
      requires Valid() && state == Wr
      modifies this`rp, this`wp, this`state, file
      ensures Valid() && if r == 0 then state == RdWr else r == -1 && state == Err
      ensures file.faults == old(file.faults) + (if r == 0 then 0 else 1)
      ensures r == 0 ==>
                Abs() == FlushSpec(old(Abs())) && file.contents == old(Abs()).bytes && file.pos == old(Abs()).pos
    {
      hide Overwrite;
      var ok := Drain(if line then lp else wp);
      if !ok {
        return EOF;
      }
      rp, wp := 0, 0;
      state := RdWr;
      Opened();
      AtRest();
      r := 0;
    }

    /** `ftell`. */
    function Ftell(): (t: int)
      requires Valid()
      reads this, file, buf
      ensures Clean() ==> t == Abs().pos
    {
      if state == Rd then file.pos - (wp - rp)
      else if state == Wr then (if line then lp else wp) + file.pos
      else file.pos
    }

    /**
     * `fseek`. Relative to here it lands where it should, except that an unbuffered stream
     * forgets a byte pushed back. `lost` tells that the flush it starts with failed: an error
     * that is forgotten unless the seek fails too.
     */
    method Fseek(offs: int, whence: Whence) returns (r: int, lost: bool)
      requires Valid()
      modifies this`rp, this`wp, this`state, file
      ensures !old(Clean()) ==> r == -1 && state == old(state) && !lost
      ensures file.faults == old(file.faults) + (if lost then 1 else 0)
      ensures lost ==> old(state) == Wr && (if r == -1 then state == Err else r == 0 && state == RdWr)
      ensures !lost ==> Valid() && (old(state) == Rd && r == -1 ==> rp == old(rp) && wp == old(wp))
      ensures old(Clean()) && !lost ==> Clean() && (r, Abs()) == SeekSpec(old(Abs()), offs + old(Drift(whence)), whence)
      ensures !lost ==> file.contents == old(if Clean() then Abs().bytes else file.contents)
    {
      lost := false;
      if state == Err || state == Closed {
        return -1, false;
      }
      ghost var v, drift := Abs(), Drift(whence);
      hide Abs, Valid, Pointers, Shape, Overwrite, Tail, SeekSpec, FlushSpec, OsFile.Target;
      var offs';
      offs', lost := Settle(offs, whence);
      ghost var f0, t := file.contents, file.Target(offs', whence);
      Opened();
      r := SeekFile(offs', whence);
      if !lost && r == 0 {
        Landed();
      }
    }

    /** What `fseek` does about the buffer. */
    method Settle(offs: int, whence: Whence) returns (offs': int, lost: bool)
      requires Valid() && Clean()
      modifies this`rp, this`wp, this`state, file
      ensures Valid() && (if lost then old(state) == Wr && state == Err else Clean() && state != Wr)
      ensures file.faults == old(file.faults) + (if lost then 1 else 0)
      ensures !lost ==> file.contents == old(Abs()).bytes && Abs() == FlushSpec(old(Abs()))
      ensures !lost ==> (state == Open <==> old(state) == Open)
      ensures !lost && old(state) == Rd ==> state == Rd && rp == old(rp) && wp == old(wp)
      ensures !lost ==>
                var t := file.Target(offs', whence);
                SeekSpec(old(Abs()), offs + old(Drift(whence)), whence)
                  == if t < 0 then (-1, Abs()) else (0, View(Idle, file.contents, t, Tail(file.contents, t)))
    {
      Opened();
      FlushesTo();
      ghost var v, drift := Abs(), Drift(whence);
      hide Abs, Valid, Pointers, Shape, Overwrite, Tail, SeekSpec, FlushSpec;
      offs', lost := offs, false;
      if state == Wr {
        var e := Fflush();
        lost := state == Err;
      } else if state == Rd && whence == FromHere && buf != unbuf {
        offs' := offs - (wp - rp);
      }
      if !lost {
        Landing(v, offs, offs', drift, whence);
      }
    }

    lemma FlushesTo()
      requires InBounds()
      ensures state != Wr ==> FlushSpec(Abs()) == Abs()
    {
    }

    lemma Landed()
      requires InBounds() && rp == wp && (state == Open ==> rp == 0) && (state == Open || state == RdWr)
      ensures Valid() && Abs() == View(Idle, file.contents, file.pos, Tail(file.contents, file.pos))
    {
      if state == Open {
        Untouched();
      } else {
        AtRest();
      }
    }

    lemma Untouched()
      requires InBounds() && state == Open && rp == wp == 0
      ensures Valid() && Abs() == View(Idle, file.contents, file.pos, Tail(file.contents, file.pos))
    {
    }

    lemma Landing(v: View, offs: int, offs': int, drift: int, whence: Whence)
      requires Valid() && Clean() && state != Wr && Abs() == FlushSpec(v)
      requires offs' == offs + (if state == Rd && whence == FromHere && buf != unbuf then rp - wp else 0)
      requires drift == Drift(whence)
      ensures Abs().bytes == file.contents
      ensures var t := file.Target(offs', whence);
              SeekSpec(v, offs + drift, whence)
                == if t < 0 then (-1, Abs()) else (0, View(Idle, file.contents, t, Tail(file.contents, t)))
    {
    }

    /** The end of `fseek`, once the buffer is dealt with. */
    method SeekFile(offs: int, whence: Whence) returns (r: int)
      requires InBounds()
      modifies this`rp, this`wp, this`state, file`pos
      ensures InBounds()
      ensures if old(file.Target(offs, whence)) < 0
              then r == -1 && state == old(state) && rp == old(rp) && wp == old(wp) && file.pos == old(file.pos)
              else r == 0 && file.pos == old(file.Target(offs, whence))
                   && state == (if old(state) == Open then Open else RdWr)
                   && (rp, wp) == if old(state) == Rd then (0, 0) else old((rp, wp))
    {
      var t := file.Seek(offs, whence);
      if t == -1 {
        return -1;
      }
      if state == Rd {
        rp, wp := 0, 0;
      }
      if state != Open {
        state := RdWr;
      }
      r := 0;
    }

    /** How far an unbuffered stream is off after a push-back. */
    ghost function Drift(whence: Whence): int reads this {
      if state == Rd && whence == FromHere && buf == unbuf then wp - rp else 0
    }

    // ---- blocks ----

    /** fread from the buffer. */
    method TakeBuffered(p: array<byte>, at: nat, n: nat) returns (d: nat)
      requires Valid() && rp < wp && 0 < n && at + n <= p.Length && p != buf
      modifies this`rp, p
      ensures Valid() && 0 < d <= n && rp > 0
      ensures Clean() ==> Got(old(Abs()), old(p[..]), p[..], at, n, d, Abs())
    {
      Opened();
      d := if wp - rp > n then n else wp - rp;
      ghost var v, before, have, rest := Abs(), p[..], buf[rp..wp], Tail(file.contents, file.pos);
      hide Abs, Got, Filled, Valid, Pointers, Shape, Tail, Overwrite;
      if Clean() {
        ReadingIs();
      }
      TakeOut(p, at, d);
      TookBuffered(v, have, rest, before, p[..], at, n, d);
    }

    method TakeOut(p: array<byte>, at: nat, d: nat)
      requires rp + d <= wp <= buf.Length && at + d <= p.Length && p != buf
      modifies this`rp, p
      ensures rp == old(rp) + d && buf[rp..wp] == old(buf[rp..wp])[d..]
      ensures Filled(old(p[..]), p[..], at, old(buf[rp..wp])[..d])
    {
      ghost var have := buf[rp..wp];
      assert buf[rp..rp + d] == have[..d];
      hide Filled;
      Move(p, at, buf, rp, d);
      rp := rp + d;
      assert buf[rp..wp] == have[d..];
    }

    lemma ReadingIs()
      requires InBounds() && state == Rd && rp <= wp
      ensures Abs() == View(Reading, file.contents, file.pos - (wp - rp), buf[rp..wp] + Tail(file.contents, file.pos))
    {
    }

    lemma TookBuffered(v: View, have: seq<byte>, rest: seq<byte>, before: seq<byte>, after: seq<byte>, at: nat,
        n: nat, d: nat)
      requires InBounds() && (Clean() ==> state == Rd) && 0 < d <= n && d <= |have|
      requires rp <= wp && wp > 0 && Filled(before, after, at, have[..d])
      requires buf[rp..wp] == have[d..] && rest == Tail(file.contents, file.pos)
      requires Clean() ==> v == View(Reading, file.contents, file.pos - (wp - rp) - d, have + rest)
      ensures Valid() && (Clean() ==> Got(v, before, after, at, n, d, Abs()))
    {
      hide Tail, Overwrite, Filled, Got;
      if Clean() {
        GotFromBuffer(v, have, rest, before, after, at, n, d);
      }
    }

    /** fread that goes past the buffer. */
    method ReadPast(p: array<byte>, at: nat, n: nat) returns (d: nat)
      requires Valid() && state == Rd && rp == wp && n > 0 && at + n <= p.Length && p != buf
      modifies this`state, file`pos, file`faults, p
      ensures Valid() && (Clean() || state == Err) && d <= n && (d == 0 ==> state != Rd) && rp > 0
      ensures file.faults == old(file.faults) + (if Clean() then 0 else 1)
      ensures Clean() ==> Got(old(Abs()), old(p[..]), p[..], at, n, d, Abs())
      ensures !Clean() ==> d == 0 && p[..] == old(p[..])
    {
      Opened();
      AtRest();
      ghost var v, before := Abs(), p[..];
      hide Abs, Tail, Overwrite, Took, Valid, Shape, ReadSpec, Got;
      var r := file.Read(p, at, n);
      if r <= 0 {
        state := if r == 0 then End else Err;
      }
      d := if r > 0 then r else 0;
      Past(v, before, p[..], at, n, r);
    }

    lemma Past(v: View, before: seq<byte>, after: seq<byte>, at: nat, n: nat, r: int)
      requires InBounds() && rp == wp > 0 && n > 0 && r <= n && at <= |before|
      requires v.mode == Reading && v.bytes == file.contents && Honest(v)
      requires v.pos == (if r > 0 then file.pos - r else file.pos) && v.pos >= 0
      requires if r > 0 then state == Rd && Took(before, after, at, r, file.contents, file.pos - r)
               else before == after && if r == 0 then state == End && file.pos >= |file.contents| else state == Err
      ensures Valid() && (Clean() ==> Got(v, before, after, at, n, if r > 0 then r else 0, Abs()))
    {
      if r > 0 {
        AtRest();
        hide Tail, Took, Got;
        GotFromFile(v, before, after, at, n, r);
      } else if r == 0 {
        AtRest();
        NothingLeft(v, n);
        hide Tail, Filled, Got;
        GotNone(v, before, at, n, Abs());
      }
    }

    /** One round of fread's loop. */
    method ReadSome(p: array<byte>, at: nat, n: nat) returns (d: nat)
      requires Valid() && n > 0 && at + n <= p.Length && p != buf && p != unbuf
      modifies this, file, buf, p
      ensures Valid() && file.contents == old(file.contents) && (buf == old(buf) || fresh(buf)) && p != buf
      ensures if old(Clean()) then Clean() || state == Err else state == old(state)
      ensures file.faults == old(file.faults) + (if old(Clean()) && state == Err then 1 else 0)
      ensures Clean() ==> Got(old(Abs()), old(p[..]), p[..], at, n, d, Abs())
      ensures old(Clean()) && !Clean() ==> d == 0 && p[..] == old(p[..])
      ensures d <= n && (d > 0 && state == Rd ==> rp > 0) && (d == 0 ==> state != Rd)
    {
      if wp > rp {
        hide Abs, Got;
        d := TakeBuffered(p, at, n);
      } else if n >= BIGN && state == Rd && buf != unbuf {
        hide Abs, Got;
        d := ReadPast(p, at, n);
      } else {
        d := ReadByte(p, at, n);
      }
    }

    method ReadByte(p: array<byte>, at: nat, n: nat) returns (d: nat)
      requires Valid() && wp <= rp && n > 0 && at + n <= p.Length && p != buf && p != unbuf
      modifies this, file, buf, p
      ensures Valid() && file.contents == old(file.contents) && (buf == old(buf) || fresh(buf)) && p != buf
      ensures if old(Clean()) then Clean() || state == Err else state == old(state)
      ensures file.faults == old(file.faults) + (if old(Clean()) && state == Err then 1 else 0)
      ensures d <= 1 && (d > 0 && state == Rd ==> rp > 0) && (d == 0 ==> state != Rd)
      ensures Clean() ==> Got(old(Abs()), old(p[..]), p[..], at, n, d, Abs())
      ensures !Clean() ==> d == 0 && p[..] == old(p[..])
    {
      ghost var v, before := Abs(), p[..];
      hide Abs, Tail, Overwrite, Filled, Got, Valid;
      var c := FillAndGet();
      if c == EOF {
        if Clean() {
          GotNone(v, before, at, n, Abs());
        }
        return 0;
      }
      d := 1;
      p[at] := c;
      if Clean() {
        GotOne(v, before, p[..], at, n, Abs());
      }
    }

    /** The loop invariant of fread; at the start the state was st and k calls had failed. */
    ghost predicate Moving(v: View, st: State, k: nat, before: seq<byte>, p: array<byte>, s: nat, n: nat, more: bool)
      reads this, file, buf, p
    {
      && file.faults == k + (if st != Err && st != Closed && state == Err then 1 else 0)
      && Valid() && p != buf && p != unbuf && s + n <= p.Length && (more ==> n > 0)
      && (if st != Err && st != Closed then Clean() || state == Err else state == st)
      && (Clean() ==> Midway(v, before, p[..], s, n, more, Abs()))
      && (st != Err && st != Closed && state == Err ==> !more && n > 0 && Arrived(v, before, p[..], s))
      && (s > 0 && state == Rd ==> rp > 0)
      && (Clean() && !more && n > 0 ==> state != Rd)
    }

    /** The loop of fread, past its first test. */
    method ReadBytes(p: array<byte>, total: nat, ghost v: View, ghost st: State, ghost k: nat,
        ghost before: seq<byte>)
      returns (s: nat)
      requires Moving(v, st, k, before, p, 0, total, true)
      modifies this, file, buf, p
      ensures s <= total && Moving(v, st, k, before, p, s, total - s, false)
      ensures file.contents == old(file.contents) && (buf == old(buf) || fresh(buf))
    {
      hide *;
      ghost var b0 := buf;
      s := 0;
      var n: nat := total;
      var more := true;
      while more
        invariant Moving(v, st, k, before, p, s, n, more) && s + n == total
        invariant file.contents == old(file.contents)
        invariant buf == b0 || fresh(buf)
        decreases n, more
      {
        var d := ReadRound(p, s, n, v, st, k, before);
        s, n := s + d, n - d;
        more := d > 0 && n > 0;
      }
    }

    lemma Unmoved(p: array<byte>, n: nat)
      requires Valid() && n <= p.Length && p != buf && p != unbuf
      ensures Moving(Abs(), state, file.faults, p[..], p, 0, n, n > 0)
    {
      hide Midway, Pointers, Abs;
      MidwayStart(Abs(), p[..], n);
    }

    method ReadRound(p: array<byte>, s: nat, n: nat, ghost v: View, ghost st: State, ghost k: nat,
        ghost before: seq<byte>)
      returns (d: nat)
      requires Moving(v, st, k, before, p, s, n, true)
      modifies this, file, buf, p
      ensures d <= n && Moving(v, st, k, before, p, s + d, n - d, d > 0 && n - d > 0)
      ensures file.contents == old(file.contents) && (buf == old(buf) || fresh(buf))
    {
      Opened();
      hide Abs, Valid, Shape, Midway, Got;
      ghost var now, mid := Abs(), p[..];
      d := ReadSome(p, s, n);
      Opened();
      if Clean() {
        MidwayStep(v, before, mid, p[..], s, n, d, now, Abs());
      } else if st != Err && st != Closed {
        MidwayArrived(v, before, mid, s, n, now);
      }
    }

    lemma Moved(v: View, st: State, k: nat, before: seq<byte>, p: array<byte>, s: nat, n: nat)
      requires s <= n && Moving(v, st, k, before, p, s, n - s, false)
      ensures Valid() && if st != Err && st != Closed then Clean() || state == Err else state == st
      ensures file.faults == k + (if st != Err && st != Closed && state == Err then 1 else 0)
      ensures n > 0 && state == Rd ==> rp > 0
      ensures st != Err && st != Closed && state == Err ==> s < n && Arrived(v, before, p[..], s)
      ensures Clean() ==>
                Abs() == ReadSpec(v, n).1 && Filled(before, p[..], 0, ReadSpec(v, n).0) && s == |ReadSpec(v, n).0|
    {
      hide Abs, Filled, ReadSpec, Midway, Pointers;
      if Clean() {
        MidwayEnd(v, before, p[..], s, n - s, Abs());
      }
    }

    /**
     * `fread`: whole items are counted, but the bytes of a partial one arrive too. It fails
     * exactly when one of its reads does, and then too counts what had arrived, the `got` bytes.
     */
    method Fread(p: array<byte>, recl: nat, nrec: nat) returns (count: nat, ghost got: nat)
      requires Valid() && recl * nrec <= p.Length && recl * nrec < 0x8000_0000 && p != buf && p != unbuf
      modifies this, file, buf, p
      ensures Valid() && file.contents == old(file.contents) && (buf == old(buf) || fresh(buf))
      ensures if old(Clean()) then Clean() || state == Err else state == old(state)
      ensures file.faults == old(file.faults) + (if old(Clean()) && state == Err then 1 else 0)
      ensures Clean() ==> Abs() == ReadSpec(old(Abs()), recl * nrec).1
      ensures Clean() ==> Filled(old(p[..]), p[..], 0, ReadSpec(old(Abs()), recl * nrec).0)
      ensures count == got / (if recl == 0 then 1 else recl)
      ensures Clean() ==> got == |ReadSpec(old(Abs()), recl * nrec).0|
      ensures old(Clean()) && state == Err ==> got < recl * nrec && Arrived(old(Abs()), old(p[..]), p[..], got)
      ensures recl * nrec > 0 && state == Rd ==> rp > 0
      ensures recl * nrec == 0 ==> state == old(state) && rp == old(rp) && wp == old(wp) && buf == old(buf)
    {
      ghost var v, before, st, k := Abs(), p[..], state, file.faults;
      hide Abs, Moving, Filled, ReadSpec, Shape, Pointers;
      var n := recl * nrec;
      assert Moving(v, st, k, before, p, 0, n, n > 0) by { Unmoved(p, n); }
      var s: nat := 0;
      if n > 0 {
        s := ReadBytes(p, n, v, st, k, before);
      }
      Moved(v, st, k, before, p, s, n);
      got := s;
      count := s / (if recl == 0 then 1 else recl);
    }

    /** fwrite into the buffer. */
    method FillBuffer(data: seq<byte>) returns (d: nat)
      requires Valid() && wp < rp && data != []
      modifies this`wp, this`accepted, buf
      ensures Valid() && 0 < d <= |data| && accepted == old(accepted) + d
      ensures Clean() ==> state == Wr && Abs() == WriteSpec(old(Abs()), data[..d])
    {
      Opened();
      d := if rp - wp > |data| then |data| else rp - wp;
      ghost var v := Abs();
      hide Overwrite, Shown, Abs, WriteSpec;
      Append(data[..d], v);
      Accept(d);
    }

    method Append(chunk: seq<byte>, ghost v: View)
      requires Valid() && wp + |chunk| <= rp && chunk != [] && v == Abs()
      modifies this`wp, buf
      ensures Valid() && (Clean() ==> state == Wr && Abs() == WriteSpec(v, chunk))
    {
      Opened();
      ghost var pending := Pending();
      if Clean() {
        WritingIs();
        ShownParts(v, file.contents, file.pos, pending);
        ShownWrite(v, file.contents, file.pos, pending, chunk);
      }
      hide Overwrite, Shown, Abs, WriteSpec, Shape;
      forall i | 0 <= i < |chunk| {
        buf[wp + i] := chunk[i];
      }
      wp := wp + |chunk|;
      if Clean() {
        assert Pending() == pending + chunk;
        WritingIs();
      }
    }

    /** fwrite past the buffer, once that is empty. */
    method WritePast(data: seq<byte>) returns (d: nat)
      requires Valid() && state == Wr && wp == rp && !line && buf != unbuf && data != []
      modifies this`rp, this`wp, this`state, this`accepted, file
      ensures Valid() && (Clean() || state == Err) && (Clean() ==> state == Wr) && accepted == old(accepted) + d
      ensures file.faults >= old(file.faults) + (if Clean() then 0 else 1)
      ensures d <= |data| && (!Clean() ==> d == 0) && (Clean() ==> 0 < d && Abs() == WriteSpec(old(Abs()), data[..d]))
    {
      hide *;
      var ok := EmptyBuffer();
      d := 0;
      if ok {
        d := WriteDirect(data);
      }
    }

    method EmptyBuffer() returns (ok: bool)
      requires Valid() && state == Wr && !line && buf != unbuf
      modifies this`rp, this`wp, this`state, file
      ensures Valid() && if ok then Clean() && state == Wr && rp == wp == 0 else !Clean() && state == Err
      ensures file.faults == old(file.faults) + (if ok then 0 else 1)
      ensures ok ==> Abs() == old(Abs())
    {
      hide Overwrite, Shown, Abs;
      ok := Drain(wp);
      if ok {
        wp, rp := 0, 0;
        assert Pending() == [];
        WritingIs();
      }
    }

    method WriteDirect(data: seq<byte>) returns (d: nat)
      requires Valid() && state == Wr && wp == rp == 0 && !line && buf != unbuf && data != []
      modifies this`state, this`accepted, file
      ensures accepted == old(accepted) + d
      ensures Valid() && if d > 0 then Clean() && state == Wr else !Clean() && state == Err
      ensures file.faults == old(file.faults) + (if d < |data| then 1 else 0)
      ensures d <= |data| && (d > 0 ==> Abs() == WriteSpec(old(Abs()), data[..d]))
    {
      Opened();
      WritingIs();
      assert Pending() == [];
      ghost var v, c0, p0 := Abs(), file.contents, file.pos;
      hide Overwrite, Shown, Abs, WriteSpec, Pending;
      var r := file.Write(data);
      if r <= 0 {
        state := Err;
        return 0;
      }
      d := r;
      PastIs(v, c0, p0, data[..d]);
      Accept(d);
    }

    lemma PastIs(v: View, c0: seq<byte>, p0: nat, data: seq<byte>)
      requires InBounds() && state == Wr && !line && rp == wp == 0 && data != []
      requires v == Shown(c0, p0, []) && file.contents == Overwrite(c0, p0, data) && file.pos == p0 + |data|
      ensures Valid() && Abs() == WriteSpec(v, data)
    {
      assert Pending() == [] && [] + data == data;
      WritingIs();
      hide Overwrite, Abs, WriteSpec, Pending;
      ShownParts(v, c0, p0, []);
      ShownWrite(v, c0, p0, [], data);
      ShownDrain(c0, p0, data);
    }

    /** One round of fwrite's loop. */
    method WriteSome(data: seq<byte>) returns (d: nat)
      requires Valid() && data != []
      modifies this, file, buf
      ensures Valid() && (buf == old(buf) || fresh(buf))
      ensures if old(Clean()) then Clean() || state == Err else state == old(state)
      ensures file.faults >= old(file.faults)
      ensures old(Clean()) && !Clean() ==> old(state) == Rd || file.faults > old(file.faults)
      ensures d <= |data|
      ensures (Clean() ==> d > 0 && state == Wr && old(state) != Rd && Abs() == WriteSpec(old(Abs()), data[..d]))
      ensures old(Clean()) && !Clean() ==> d == 0
      ensures accepted == old(accepted) + d
    {
      if wp < rp {
        hide Abs, WriteSpec;
        d := FillBuffer(data);
      } else if |data| >= BIGN && state == Wr && !line && buf != unbuf {
        hide Abs, WriteSpec;
        d := WritePast(data);
      } else {
        hide Abs, WriteSpec;
        var r := FlushAndPut(data[0]);
        d := if r == EOF then 0 else 1;
        assert data[..1] == [data[0] % 256];
      }
    }

    /** The loop invariant of fwrite; at the start the state was st, k calls had failed and `a` bytes had been taken. */
    ghost predicate Sending(v: View, st: State, k: nat, a: nat, data: seq<byte>, s: nat, more: bool)
      reads this, file, buf
    {
      && accepted == a + s && (st != Err && st != Closed && state == Err ==> s < |data|)
      && file.faults >= k + (if st != Err && st != Closed && st != Rd && state == Err then 1 else 0)
      && Valid() && s <= |data| && (more ==> s < |data|)
      && (if st != Err && st != Closed then Clean() || (state == Err && !more) else state == st)
      && (st == Rd ==> s == 0)
      && (Clean() ==> Abs() == WriteSpec(v, data[..s]) && (!more ==> s == |data|))
      && (Clean() && s > 0 ==> st != Rd && state == Wr)
      && (Clean() && s == 0 ==> state == st)
    }

    /** The loop of fwrite. */
    method WriteBytes(data: seq<byte>, ghost v: View, ghost st: State, ghost k: nat, ghost a: nat) returns (s: nat)
      requires Sending(v, st, k, a, data, 0, data != [])
      modifies this, file, buf
      ensures Sending(v, st, k, a, data, s, false)
      ensures buf == old(buf) || fresh(buf)
      ensures data == [] ==> state == old(state) && rp == old(rp) && wp == old(wp) && buf == old(buf)
    {
      hide *;
      ghost var b0, r0, w0, s0 := buf, rp, wp, state;
      s := 0;
      var more := data != [];
      while more
        invariant Sending(v, st, k, a, data, s, more) && s <= |data|
        invariant buf == b0 || fresh(buf)
        invariant data == [] ==> !more && state == s0 && rp == r0 && wp == w0 && buf == b0
        decreases |data| - s, more
      {
        var d := WriteRound(data, s, v, st, k, a);
        s := s + d;
        more := d > 0 && s < |data|;
      }
    }

    method WriteRound(data: seq<byte>, s: nat, ghost v: View, ghost st: State, ghost k: nat, ghost a: nat)
      returns (d: nat)
      requires Sending(v, st, k, a, data, s, true)
      modifies this, file, buf
      ensures s + d <= |data| && Sending(v, st, k, a, data, s + d, d > 0 && s + d < |data|)
      ensures buf == old(buf) || fresh(buf)
    {
      hide Abs, Pointers, Shape, WriteSpec;
      d := WriteSome(data[s..]);
      if Clean() {
        WriteAppend(v, data[..s], data[s..][..d]);
        assert data[..s] + data[s..][..d] == data[..s + d];
      }
    }

    lemma Unsent(data: seq<byte>)
      requires Valid()
      ensures Sending(Abs(), state, file.faults, accepted, data, 0, data != [])
    {
    }

    /**
     * `fwrite`: all or an error, which a write that failed is behind, and an error at once after
     * a read. What is counted is the whole items taken, which are not all when there is an error.
     */
    method Fwrite(p: seq<byte>, recl: nat, nrec: nat) returns (count: nat)
      requires Valid() && recl * nrec <= |p| && recl * nrec < 0x8000_0000
      modifies this, file, buf
      ensures Valid() && (buf == old(buf) || fresh(buf))
      ensures if old(Clean()) then Clean() || state == Err else state == old(state)
      ensures file.faults >= old(file.faults)
      ensures old(Clean()) && state == Err && old(state) != Rd ==> file.faults > old(file.faults)
      ensures Clean() ==> Abs() == WriteSpec(old(Abs()), p[..recl * nrec])
      ensures accepted >= old(accepted) && count == (accepted - old(accepted)) / (if recl == 0 then 1 else recl)
      ensures Clean() ==> accepted == old(accepted) + recl * nrec
      ensures old(Clean()) && state == Err ==> accepted < old(accepted) + recl * nrec
      ensures Clean() && recl * nrec > 0 ==> old(state) != Rd && state == Wr
      ensures old(state) == Rd ==> count == 0
      ensures recl * nrec == 0 ==> state == old(state) && rp == old(rp) && wp == old(wp) && buf == old(buf)
    {
      ghost var v, st, k, a := Abs(), state, file.faults, accepted;
      var n := recl * nrec;
      Unsent(p[..n]);
      hide Abs, Pointers, Shape, WriteSpec;
      var s := WriteBytes(p[..n], v, st, k, a);
      assert p[..n][..n] == p[..n];
      count := s / (if recl == 0 then 1 else recl);
    }

    /** `fclose`: what was written reaches the file. It fails exactly when the flush or the system's close does. */
    method Fclose() returns (r: int)
      requires Valid()
      modifies this, file
      ensures Valid() && state == Closed && buf == old(buf)
      ensures r == 0 || r == -1
      ensures old(Clean()) ==> (r == -1 <==> file.faults > old(file.faults))
      ensures !old(Clean()) ==> r == -1
      ensures old(Clean()) && r == 0 ==> file.contents == old(Abs()).bytes
    {
      if state == Closed {
        return EOF;
      }
      NotWriting();
      hide Abs, Pointers, Overwrite;
      r := Fflush();
      var error := file.Close();
      if error < 0 {
        r := EOF;
      }
      state := Closed;
      line := false;
    }

    lemma NotWriting()
      requires InBounds()
      ensures state != Wr ==> Abs().bytes == file.contents
    {
    }
  }
}
