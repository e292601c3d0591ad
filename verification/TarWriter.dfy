/** The ring of block buffers and the archive file, and writing an archive. */
module TarWriter {
  import opened Arith
  import opened Bytes
  import opened TarHeader
  import opened TarFormat

  /** The archive, in blocks. */
  class ArFile {
    var contents: seq<Block>
    var pos: nat

    constructor (c: seq<Block>)
      ensures contents == c && pos == 0
    {
      contents, pos := c, 0;
    }

    /** What is left, up to n blocks. */
    method Read(n: nat) returns (bs: seq<Block>)
      modifies this`pos
      ensures |bs| <= n && pos == old(pos) + |bs|
      ensures if old(pos) >= |contents| then bs == []
              else pos <= |contents| && bs == contents[old(pos)..pos] && (|bs| < n ==> pos == |contents|)
    {
      if pos >= |contents| {
        return [];
      }
      var k := if pos + n <= |contents| then n else |contents| - pos;
      bs := contents[pos..pos + k];
      pos := pos + k;
    }

    method Write(bs: seq<Block>)
      requires pos <= |contents|
      modifies this
      ensures pos == old(pos) + |bs| && pos <= |contents| && contents[..pos] == old(contents[..pos]) + bs
      ensures |contents| == if pos > old(|contents|) then pos else old(|contents|)
    {
      contents := contents[..pos] + bs + if pos + |bs| <= |contents| then contents[pos + |bs|..] else [];
      pos := pos + |bs|;
    }

    method Seek(p: nat)
      modifies this`pos
      ensures pos == p
    {
      pos := p;
    }
  }

  /** A number of whole records. */
  predicate Whole(blocks: nat, nblock: nat) { nblock > 0 && blocks % nblock == 0 }

  lemma WholeNext(blocks: nat, nblock: nat)
    requires Whole(blocks, nblock)
    ensures Whole(blocks + nblock, nblock)
  {
    var q := blocks / nblock;
    DivModProps(blocks, nblock);
    assert (q + 1) * nblock == q * nblock + nblock;
    DivModUnique(blocks + nblock, nblock, q + 1, 0);
  }

  function ZeroBlocks(n: nat): (z: seq<Block>)
    ensures |z| == n
  { seq(n, _ => ZERO) }

  lemma Join(a: seq<Block>, b: seq<Block>, c: seq<Block>)
    ensures a + (b + c) == (a + b) + c
  {
  }

  /** curblk and endblk are places in tpblk; -1 is no block yet. */
  class Tar {
    const ar: ArFile
    const usefile: bool
    const seekable: bool
    const tpblk: array<Block>
    var nblock: nat
    var cur: int
    var blkoff: nat
    var nexthdr: nat
    var done: bool
    var first: bool

    /** `initblks`. */
    constructor (f: ArFile, named: bool, canSeek: bool, blocking: nat)
      requires blocking > 0 && f.pos == 0
      ensures Shape() && ar == f && usefile == named && seekable == canSeek
      ensures nblock == blocking == tpblk.Length && fresh(tpblk)
      ensures cur == -1 && blkoff == 0 && nexthdr == 0 && !done && first
    {
      ar, usefile, seekable, nblock := f, named, canSeek, blocking;
      tpblk := new Block[blocking](_ => ZERO);
      cur, blkoff, nexthdr, done, first := -1, 0, 0, false, true;
    }

    ghost predicate Shape() reads this { 0 < nblock <= tpblk.Length && -1 <= cur <= nblock }

    // ---- writing ----

    /** Whole records have been written. */
    ghost predicate Writing() reads this, ar { Shape() && ar.pos <= |ar.contents| && Whole(ar.pos, nblock) }

    /** From len blocks at position p0 on the archive has become longer only by what was written past its end. */
    ghost predicate Grown(p0: nat, len: nat) reads ar {
      ar.pos >= p0 && |ar.contents| == if ar.pos > len then ar.pos else len
    }

    /** Blocks that are ready but not written; a full ring has been. */
    ghost function Pending(): seq<Block>
      requires Shape()
      reads this, tpblk
    {
      if 0 < cur < nblock then tpblk[..cur] else []
    }

    /** The archive so far. */
    ghost function Out(): seq<Block>
      requires Writing()
      reads this, ar, tpblk
    {
      ar.contents[..ar.pos] + Pending()
    }

    /** `getblke`. */
    method GetBlkE() returns (i: nat)
      requires Shape()
      modifies this`cur
      ensures Shape() && i < nblock && cur == i + 1 && i == |old(Pending())| && tpblk[..i] == old(Pending())
    {
      if cur == -1 || cur >= nblock {
        cur := 0;
      }
      i := cur;
      cur := cur + 1;
    }

    /** `getblkz`. */
    method GetBlkZ() returns (i: nat)
      requires Shape()
      modifies this`cur, tpblk
      ensures Shape() && i < nblock && cur == i + 1 && tpblk[..i] == old(Pending()) && tpblk[i] == ZERO
    {
      i := GetBlkE();
      ghost var t := tpblk[..i];
      tpblk[i] := ZERO;
      assert tpblk[..i] == t;
    }

    /** `gothowmany`. */
    function GotHowMany(max: nat): (n: nat)
      requires Shape() && cur > 0
      reads this
      ensures n <= max && n <= nblock - (cur - 1) && (n == max || n == nblock - (cur - 1))
    {
      if nblock - (cur - 1) > max then max else nblock - (cur - 1)
    }

    /** `putlastblk`: the rest of the ring is zeroed and the whole ring written. */
    method PutLastBlk()
      requires Writing() && cur > 0
      modifies ar, tpblk
      ensures Writing() && ar.contents[..ar.pos] == old(ar.contents[..ar.pos] + tpblk[..cur]) + ZeroBlocks(nblock - cur)
      ensures Grown(old(ar.pos), old(|ar.contents|))
      ensures tpblk[..cur] == old(tpblk[..cur])
    {
      ghost var before := ar.contents[..ar.pos];
      ghost var t := tpblk[..cur];
      ZeroRest();
      WholeNext(ar.pos, nblock);
      hide Whole, ZeroBlocks, ZERO;
      ar.Write(tpblk[..nblock]);
      Join(before, t, ZeroBlocks(nblock - cur));
    }

    method ZeroRest()
      requires Shape() && cur >= 0
      modifies tpblk
      ensures tpblk[..cur] == old(tpblk[..cur]) && tpblk[..nblock] == old(tpblk[..cur]) + ZeroBlocks(nblock - cur)
    {
      forall j | cur <= j < nblock {
        tpblk[j] := ZERO;
      }
    }

    /** `putblk`, for the blocks up to cur. */
    method PutBlk()
      requires Writing() && cur > 0
      modifies ar, tpblk
      ensures Writing() && Out() == old(ar.contents[..ar.pos] + tpblk[..cur])
      ensures Grown(old(ar.pos), old(|ar.contents|))
    {
      if cur >= nblock {
        PutLastBlk();
        assert ZeroBlocks(nblock - cur) == [];
        hide ZeroBlocks, Whole;
      }
    }

    static method HeaderBlock(e: Entry, posix: bool) returns (b: Block, ok: bool)
      requires Ordinary(e)
      ensures (ok <==> Fits(FullName(e), posix)) && if ok then Describes(FromBlock(b), e) else EndMark(FromBlock(b))
    {
      var h;
      h, ok := MakeHeader(e, posix);
      BlockFields(h);
      b := ToBlock(h);
    }

    /** The header of a member. */
    method PutHeader(e: Entry, posix: bool) returns (ok: bool)
      requires Writing() && Ordinary(e)
      modifies this`cur, ar, tpblk
      ensures Writing() && (ok <==> Fits(FullName(e), posix)) && |Out()| == |old(Out())| + 1
      ensures Grown(old(ar.pos), old(|ar.contents|))
      ensures Out()[..|old(Out())|] == old(Out())
      ensures var h := FromBlock(Out()[|old(Out())|]); if ok then Describes(h, e) else EndMark(h)
    {
      ghost var out := Out();
      var i := GetBlkZ();
      hide Describes, EndMark, Fits, FullName, Ordinary, FromBlock, Whole;
      var b;
      b, ok := HeaderBlock(e, posix);
      ghost var t := tpblk[..i];
      tpblk[i] := b;
      assert tpblk[..cur] == t + [b];
      PutBlk();
      Join(old(ar.contents[..ar.pos]), t, [b]);
      assert Out() == out + [b];
    }

    /** Only k blocks from i on may differ. */
    static ghost predicate Outside(before: seq<Block>, after: seq<Block>, i: nat, k: nat) {
      |after| == |before| >= i + k && after[..i] == before[..i] && after[i + k..] == before[i + k..]
    }

    static lemma OneMore(before: seq<Block>, now: seq<Block>, i: nat, j: nat, k: nat, b: Block)
      requires Outside(before, now, i, k) && j < k
      ensures Outside(before, now[i + j := b], i, k) && now[i + j := b][i..i + j + 1] == now[i..i + j] + [b]
    {
    }

    /** A read of whole blocks of a file's data into the ring. */
    method FillWhole(i: nat, k: nat, data: seq<byte>, off: nat)
      requires Shape() && i + k <= nblock && off + TBLOCK * k <= |data|
      modifies tpblk
      ensures Outside(old(tpblk[..]), tpblk[..], i, k)
      ensures Flat(tpblk[..][i..i + k]) == data[off..off + TBLOCK * k]
    {
      var j, at := 0, off;
      ghost var before := tpblk[..];
      assert before[i..i] == [] && data[off..off] == [] && Flat([]) == [];
      assert Outside(before, before, i, k);
      hide Flat, Outside;
      while j < k
        invariant 0 <= j <= k && Outside(before, tpblk[..], i, k) && at == off + TBLOCK * j
        invariant Flat(tpblk[..][i..i + j]) == data[off..at]
      {
        var b: Block := data[at..at + TBLOCK];
        FlatGrow(tpblk[..][i..i + j], b, data, off, at);
        OneMore(before, tpblk[..], i, j, k, b);
        SetBlock(i + j, b);
        j, at := j + 1, at + TBLOCK;
      }
    }

    method SetBlock(p: nat, b: Block)
      requires p < tpblk.Length
      modifies tpblk
      ensures tpblk[..] == old(tpblk[..])[p := b]
    {
      tpblk[p] := b;
    }

    /** From byte n on the block holds zeros, or what it held before. */
    static ghost predicate Padded(before: Block, after: Block, n: int, zero: bool) {
      0 <= n <= TBLOCK && after[n..] == if zero then Zeros(TBLOCK - n) else before[n..]
    }

    /**
     * A read of data into k blocks of the ring. What is left of the last block is zeroed only
     * if the read got less than one block; otherwise it keeps what was there.
     */
    method Fill(i: nat, k: nat, data: seq<byte>, off: nat) returns (n: nat)
      requires Shape() && i + k <= nblock && off < |data| && 0 < k <= Blocks(|data| - off)
      modifies tpblk
      ensures Outside(old(tpblk[..]), tpblk[..], i, k)
      ensures n <= |data| - off && n <= TBLOCK * k && (n == TBLOCK * k || n == |data| - off)
      ensures Flat(tpblk[..][i..i + k])[..n] == data[off..off + n]
      ensures Padded(old(tpblk[i + k - 1]), tpblk[i + k - 1], n - TBLOCK * (k - 1), n < TBLOCK)
    {
      hide Outside, Flat;
      Room(|data| - off);
      if off + TBLOCK * k <= |data| {
        FillWhole(i, k, data, off);
        n := TBLOCK * k;
      } else {
        n := |data| - off;
        FillTail(i, k, data, off);
      }
    }

    method FillTail(i: nat, k: nat, data: seq<byte>, off: nat)
      requires Shape() && i + k <= nblock && 0 < k && off + TBLOCK * (k - 1) <= |data| <= off + TBLOCK * k
      modifies tpblk
      ensures Outside(old(tpblk[..]), tpblk[..], i, k)
      ensures Flat(tpblk[..][i..i + k])[..|data| - off] == data[off..]
      ensures Padded(old(tpblk[i + k - 1]), tpblk[i + k - 1], |data| - off - TBLOCK * (k - 1), |data| - off < TBLOCK)
    {
      hide Flat, Outside, Padded;
      ghost var before := tpblk[..];
      var at, p := off + TBLOCK * (k - 1), i + k - 1;
      FillWhole(i, k - 1, data, off);
      ghost var mid := tpblk[..];
      Later(before, mid, i, k);
      assert mid[p] == tpblk[p] && before[p] == old(tpblk[p]);
      FillLast(p, data[at..], |data| - off < TBLOCK);
      TailIs(before, mid, tpblk[..], i, k, data, off, at);
    }

    /** What whole blocks and a part of the last one come to. */
    static lemma TailIs(before: seq<Block>, mid: seq<Block>, after: seq<Block>, i: nat, k: nat,
        data: seq<byte>, off: nat, at: nat)
      requires 0 < k && off <= at <= |data| <= at + TBLOCK && i + k <= |after| && Outside(before, mid, i, k)
      requires Flat(mid[i..i + k - 1]) == data[off..at] && after == mid[i + k - 1 := after[i + k - 1]]
      requires after[i + k - 1][..|data| - at] == data[at..]
      ensures Outside(before, after, i, k)
      ensures |data| - off <= |Flat(after[i..i + k])| && Flat(after[i..i + k])[..|data| - off] == data[off..]
    {
      OneMore(before, mid, i, k - 1, k, after[i + k - 1]);
      hide Flat, Outside;
      FlatPartial(mid[i..i + k - 1], after[i + k - 1], data[off..at], data[at..]);
      Halves(data, off, at);
    }

    static lemma Halves(data: seq<byte>, off: nat, at: nat)
      requires off <= at <= |data|
      ensures data[off..at] + data[at..] == data[off..]
    {
    }

    static lemma Later(before: seq<Block>, mid: seq<Block>, i: nat, k: nat)
      requires 0 < k && i + k <= |before| && Outside(before, mid, i, k - 1)
      ensures Outside(before, mid, i, k) && mid[i + k - 1] == before[i + k - 1]
    {
      assert mid[i + k - 1..][0] == before[i + k - 1..][0] && mid[i + k - 1..][1..] == before[i + k - 1..][1..];
    }

    method FillLast(p: nat, part: seq<byte>, zero: bool)
      requires p < tpblk.Length && |part| <= TBLOCK
      modifies tpblk
      ensures tpblk[..] == old(tpblk[..])[p := tpblk[p]] && tpblk[p][..|part|] == part
      ensures Padded(old(tpblk[p]), tpblk[p], |part|, zero)
    {
      var b: Block := part + if zero then Zeros(TBLOCK - |part|) else tpblk[p][|part|..];
      tpblk[p] := b;
    }

    /** One round of the loop over a file's data: as many blocks as the ring has room for. */
    method PutChunk(data: seq<byte>, off: nat, blksleft: nat) returns (k: nat, n: nat, ghost more: seq<Block>)
      requires Writing() && off < |data| && blksleft == Blocks(|data| - off) && blksleft > 0
      modifies this`cur, ar, tpblk
      ensures Writing() && Out() == old(Out()) + more && |more| == k && 0 < k <= blksleft
      ensures Grown(old(ar.pos), old(|ar.contents|))
      ensures n <= |data| - off && n <= TBLOCK * k && (n == TBLOCK * k || n == |data| - off)
      ensures Flat(more)[..n] == data[off..off + n]
    {
      hide Flat, Blocks, Whole;
      var i := GetBlkE();
      k := GotHowMany(blksleft);
      ghost var t := tpblk[..i];
      n := Fill(i, k, data, off);
      more := tpblk[i..i + k];
      assert tpblk[..][..i] == t && tpblk[..][i..i + k] == more;
      cur := cur + k - 1;
      assert tpblk[..cur] == t + more;
      PutBlk();
      Join(old(ar.contents[..ar.pos]), t, more);
    }

    /** The data of a member. */
    method PutData(data: seq<byte>) returns (ghost ds: seq<Block>)
      requires Writing()
      modifies this`cur, ar, tpblk
      ensures Writing() && Out() == old(Out()) + ds && DataIn(ds, data)
      ensures Grown(old(ar.pos), old(|ar.contents|))
    {
      ghost var out, p0, len := Out(), ar.pos, |ar.contents|;
      ds := [];
      var off, blksleft := 0, Blocks(|data|);
      NoData(data);
      hide DataPart, Out, Whole, Flat;
      while blksleft > 0
        invariant Writing() && Out() == out + ds && Grown(p0, len)
        invariant 0 <= off <= |data| && blksleft == Blocks(|data| - off) && DataPart(ds, data, off)
      {
        var k, n;
        ghost var more;
        k, n, more := PutChunk(data, off, blksleft);
        MoreData(ds, more, data, off, n);
        BlocksLess(|data| - off, k, n);
        Join(out, ds, more);
        ds := ds + more;
        off := off + n;
        blksleft := blksleft - k;
      }
      AllData(ds, data, off);
    }

    /** `addtoar` for one file or directory. */
    method AddMember(m: Member, posix: bool, ghost ms: seq<Member>)
      requires Writing() && Sound(m, posix) && Stored(Out(), ms)
      requires |Out()| == Spans(ms)
      modifies this`cur, ar, tpblk
      ensures Writing() && Stored(Out(), ms + [m]) && |Out()| == Spans(ms + [m])
      ensures Grown(old(ar.pos), old(|ar.contents|))
    {
      ghost var out, p0, len := Out(), ar.pos, |ar.contents|;
      hide Out, Whole, Stored, Spans, Describes, DataIn, MemberBlocks, EndMark, FromBlock, Fits, Ordinary, Grown;
      Ungrown();
      var ok := PutHeader(m.entry, posix);
      GrownSize(p0, len);
      ghost var mid, p1, len1 := Out(), ar.pos, |ar.contents|;
      ghost var ds := [];
      Ungrown();
      assert mid == out + [mid[|out|]];
      if !m.entry.dir {
        ds := PutData(m.data);
      } else {
        NoDataAtAll();
      }
      GrownMore(p0, len, p1, len1);
      assert Out() == mid + ds;
      MakesMember(mid[|out|], ds, m);
      Join(out, [mid[|out|]], ds);
      StoredMore(out, ms, [mid[|out|]] + ds, m);
    }

    lemma NoDataAtAll()
      ensures DataIn([], [])
    {
    }

    /** The end mark of two zero blocks, and zeros up to a whole record. */
    method Finish()
      requires Writing()
      modifies this`cur, ar, tpblk
      ensures Writing() && |old(Out())| + 2 <= ar.pos < |old(Out())| + 2 + nblock
      ensures Grown(old(ar.pos), old(|ar.contents|))
      ensures ar.contents[..|old(Out())|] == old(Out())
      ensures ar.contents[|old(Out())|] == ZERO && ar.contents[|old(Out())| + 1] == ZERO
    {
      ghost var out := Out();
      hide Whole, ZERO;
      PutZero();
      ghost var mid := Out();
      hide Out;
      EndRecord();
      assert mid == out + [ZERO];
      Marked(ar.contents, ar.pos, out);
    }

    method PutZero()
      requires Writing()
      modifies this`cur, ar, tpblk
      ensures Writing() && Out() == old(Out()) + [ZERO]
      ensures Grown(old(ar.pos), old(|ar.contents|))
    {
      hide Whole, ZERO;
      var i := GetBlkZ();
      ghost var t := tpblk[..i];
      assert tpblk[..cur] == t + [ZERO];
      PutBlk();
      Join(old(ar.contents[..ar.pos]), t, [ZERO]);
    }

    method EndRecord()
      requires Writing()
      modifies this`cur, ar, tpblk
      ensures Writing() && |old(Out())| + 1 <= ar.pos < |old(Out())| + 1 + nblock
      ensures ar.contents[..|old(Out())| + 1] == old(Out()) + [ZERO]
      ensures Grown(old(ar.pos), old(|ar.contents|))
    {
      hide Whole, ZERO;
      var i := GetBlkZ();
      ghost var t, out := tpblk[..i], old(Out());
      assert tpblk[..cur] == t + [ZERO];
      PutLastBlk();
      Join(old(ar.contents[..ar.pos]), t, [ZERO]);
      assert ar.contents[..|out| + 1] == ar.contents[..ar.pos][..|out| + 1] == out + [ZERO];
    }

    lemma Marked(c: seq<Block>, pos: nat, out: seq<Block>)
      requires pos <= |c| && |out| + 2 <= pos && c[..|out| + 2] == out + [ZERO] + [ZERO]
      ensures c[..|out|] == out && c[|out|] == ZERO && c[|out| + 1] == ZERO
    {
      hide ZERO;
      var d := c[..|out| + 2];
      assert c[..|out|] == d[..|out|] && d[|out|] == c[|out|] && d[|out| + 1] == c[|out| + 1];
    }

    lemma Ungrown()
      requires ar.pos <= |ar.contents|
      ensures Grown(ar.pos, |ar.contents|)
    {
    }

    lemma GrownSize(p0: nat, len: nat)
      requires Grown(p0, len)
      ensures ar.pos >= p0 && |ar.contents| == if ar.pos > len then ar.pos else len
    {
    }

    lemma WholeWritten()
      requires Writing()
      ensures Whole(ar.pos, nblock)
    {
    }

    lemma GrownMore(p0: nat, len: nat, p1: nat, len1: nat)
      requires p1 >= p0 && len1 == (if p1 > len then p1 else len) && Grown(p1, len1)
      ensures Grown(p0, len)
    {
    }

    /** What the loop over the members to be added keeps. */
    ghost predicate Added(ms: seq<Member>, p0: nat, len: nat)
      reads this, ar, tpblk
    {
      Writing() && Stored(Out(), ms) && |Out()| == Spans(ms) && Grown(p0, len)
    }

    method AddNext(m: Member, posix: bool, ghost ms: seq<Member>, ghost p0: nat, ghost len: nat)
      requires Added(ms, p0, len) && Sound(m, posix)
      modifies this`cur, ar, tpblk
      ensures Added(ms + [m], p0, len)
    {
      hide Out, Writing, Shape, Stored, Spans, Sound, Grown, Whole, ZERO;
      ghost var p1, len1 := ar.pos, |ar.contents|;
      GrownSize(p0, len);
      AddMember(m, posix, ms);
      GrownMore(p0, len, p1, len1);
    }

    method AddMembers(more: seq<Member>, posix: bool, ghost ms: seq<Member>)
      requires Added(ms, ar.pos, |ar.contents|)
      requires forall m :: m in more ==> Sound(m, posix)
      modifies this`cur, ar, tpblk
      ensures Added(ms + more, old(ar.pos), old(|ar.contents|))
    {
      hide *;
      ghost var p0, len, all := ar.pos, |ar.contents|, ms;
      assert ms + more[..0] == ms;
      var i := 0;
      while i < |more|
        invariant 0 <= i <= |more| && all == ms + more[..i] && Added(all, p0, len)
      {
        AddNext(more[i], posix, all, p0, len);
        assert all + [more[i]] == ms + more[..i + 1];
        all := all + [more[i]];
        i := i + 1;
      }
      assert more[..i] == more;
    }

    /** `replace` from where members are added on: the archive then holds the old members and the new. */
    method AddAll(more: seq<Member>, posix: bool, ghost ms: seq<Member>)
      requires Writing() && (forall m :: m in more ==> Sound(m, posix))
      requires Stored(Out(), ms) && |Out()| == Spans(ms)
      modifies this`cur, ar, tpblk
      ensures Writing() && Archive(ar.contents, ms + more)
      ensures Spans(ms + more) + 2 <= ar.pos < Spans(ms + more) + 2 + nblock
      ensures Grown(old(ar.pos), old(|ar.contents|))
    {
      Ungrown();
      hide Out, Whole, Stored, Spans, Sound, Archive, Grown, ZERO;
      AddMembers(more, posix, ms);
      ghost var out, p0, len, p1, len1 := Out(), old(ar.pos), old(|ar.contents|), ar.pos, |ar.contents|;
      GrownSize(p0, len);
      Finish();
      GrownMore(p0, len, p1, len1);
      MakesArchive(out, ms + more, ar.contents);
    }

    /** `tar c`: the archive is just enough whole records. */
    method Create(ms: seq<Member>, posix: bool)
      requires Shape() && cur == -1 && ar.pos == 0 && ar.contents == []
      requires forall m :: m in ms ==> Sound(m, posix)
      modifies this`cur, ar, tpblk
      ensures Archive(ar.contents, ms) && Whole(|ar.contents|, nblock)
      ensures Spans(ms) + 2 <= |ar.contents| < Spans(ms) + 2 + nblock
    {
      assert Out() == [] && Stored([], []);
      hide Out, Stored, Sound, Archive;
      AddAll(ms, posix, []);
      assert [] + ms == ms;
    }
  }
}
