/** Reading an archive through the ring, skipping what is not wanted, and appending to it. */
module TarReader {
  import opened Arith
  import opened Bytes
  import opened TarHeader
  import opened TarFormat
  import opened TarWriter

  /** The archive as it is read: zeros complete its last record. */
  ghost predicate IsPadded(p: seq<Block>, c: seq<Block>, nblock: nat) {
    |c| <= |p| < |c| + nblock && p[..|c|] == c && Whole(|p|, nblock) && forall j :: |c| <= j < |p| ==> p[j] == ZERO
  }

  /** The number of blocks in a record; the first read of a named archive may find it smaller. */
  ghost function Record(t: Tar): nat
    reads t, t.ar
  {
    if t.first && t.usefile && 0 < |t.ar.contents| < t.nblock then |t.ar.contents| else t.nblock
  }

  /** The ring holds the archive's blocks from blkoff on. */
  ghost predicate Exact(t: Tar, p: seq<Block>)
    reads t, t.tpblk
  {
    t.Shape() && t.blkoff + t.nblock <= |p| && t.tpblk[..t.nblock] == p[t.blkoff..t.blkoff + t.nblock]
  }

  /** A record has been read or passed over: then the next header is not in it. */
  ghost predicate Loaded(t: Tar, p: seq<Block>)
    reads t, t.ar, t.tpblk
  {
    && !t.first && Whole(t.blkoff, t.nblock)
    && (if t.done then |p| == t.blkoff + t.nblock else t.ar.pos == t.blkoff + t.nblock)
    && (Exact(t, p) || t.blkoff + t.nblock <= t.nexthdr)
  }

  ghost predicate Reading(t: Tar, p: seq<Block>)
    reads t, t.ar, t.tpblk
  {
    && t.Shape() && IsPadded(p, t.ar.contents, Record(t))
    && if t.cur == -1 then t.first && !t.done && t.ar.pos == 0 && t.blkoff == 0 else Loaded(t, p)
  }

  /** The next block to be got. */
  ghost function Here(t: Tar): nat
    reads t
  {
    if t.cur < 0 then 0 else t.blkoff + t.cur
  }

  // ---- records ----

  lemma WholeOrder(x: nat, y: nat, n: nat)
    requires Whole(x, n) && Whole(y, n) && x < y
    ensures x + n <= y
  {
    DivModProps(x, n);
    DivModProps(y, n);
    var a, b := x / n, y / n;
    if b <= a {
      MulMono(b, a, n);
    } else {
      MulMono(a + 1, b, n);
      assert (a + 1) * n == a * n + n;
    }
  }

  /** A record that starts inside the archive is in the padded archive; the last one ends it. */
  lemma RecordInside(p: seq<Block>, c: seq<Block>, n: nat, at: nat)
    requires IsPadded(p, c, n) && Whole(at, n)
    ensures at < |c| ==> at + n <= |p|
    ensures at < |c| <= at + n ==> |p| == at + n
    ensures at >= |c| ==> at >= |p|
  {
    if at < |p| {
      WholeOrder(at, |p|, n);
    }
    WholeNext(at, n);
    if at + n < |p| {
      WholeOrder(at + n, |p|, n);
    }
  }

  /** What a read of a record gives, completed with zeros, is a record of the padded archive. */
  lemma RecordIs(p: seq<Block>, c: seq<Block>, n: nat, at: nat, bs: seq<Block>)
    requires IsPadded(p, c, n) && at + n <= |p| && at + |bs| <= |c| && bs == c[at..at + |bs|] && |bs| <= n
    requires |bs| < n ==> at + |bs| == |c|
    ensures bs + ZeroBlocks(n - |bs|) == p[at..at + n]
  {
    hide ZERO;
    assert forall j :: 0 <= j < |bs| ==> p[at + j] == p[..|c|][at + j] == bs[j];
  }

  /** The block buffers after a read. */
  method Load(t: Tar, bs: seq<Block>)
    requires t.Shape() && |bs| <= t.nblock
    modifies t.tpblk
    ensures t.tpblk[..t.nblock] == bs + ZeroBlocks(t.nblock - |bs|)
  {
    forall j | 0 <= j < t.nblock {
      t.tpblk[j] := if j < |bs| then bs[j] else ZERO;
    }
  }

  /** The ring is ready from its first block on. */
  ghost predicate Fresh(t: Tar, p: seq<Block>, at: nat, justhdr: bool)
    reads t, t.ar, t.tpblk
  {
    t.Shape() && IsPadded(p, t.ar.contents, t.nblock) && Loaded(t, p) && t.blkoff == at && (!justhdr ==> Exact(t, p))
  }

  /** The first read of a named archive gives its size. */
  method FirstRead(t: Tar, ghost p: seq<Block>) returns (ok: bool)
    requires Reading(t, p) && t.cur == -1 && t.usefile
    modifies t`nblock, t`first, t.ar, t.tpblk
    ensures t.ar.contents == old(t.ar.contents) && if ok then Fresh(t, p, 0, false) else p == []
    ensures Record(t) == old(Record(t))
  {
    hide Whole, ZERO;
    var bs := t.ar.Read(t.nblock);
    if bs == [] {
      Nothing(p, t.ar.contents, t.nblock);
      return false;
    }
    if |bs| != t.nblock {
      t.nblock := |bs|;
    }
    Load(t, bs);
    t.first := false;
    StartOf(p, t.ar.contents, t.nblock, bs);
    ok := true;
  }

  lemma Nothing(p: seq<Block>, c: seq<Block>, n: nat)
    requires IsPadded(p, c, n) && c == []
    ensures p == []
  {
    RecordInside(p, c, n, 0);
  }

  lemma StartOf(p: seq<Block>, c: seq<Block>, n: nat, bs: seq<Block>)
    requires IsPadded(p, c, n) && |bs| == n <= |c| && bs == c[0..n]
    ensures n <= |p| && bs + ZeroBlocks(0) == p[0..n] && Whole(0, n)
  {
    RecordIs(p, c, n, 0, bs);
  }

  /** A read of a whole record, or of the last, which ends the archive. */
  method ReadRecord(t: Tar, ghost p: seq<Block>) returns (ok: bool)
    requires Reading(t, p) && !t.done && (t.cur == -1 ==> !t.usefile) && (t.cur == -1 || t.cur == t.nblock)
    modifies t`blkoff, t`first, t`done, t.ar, t.tpblk
    ensures t.ar.contents == old(t.ar.contents) && if ok then Fresh(t, p, old(Here(t)), false) else old(Here(t)) >= |p|
    ensures Record(t) == old(Record(t))
  {
    ghost var at, c := Here(t), t.ar.contents;
    AtRecord(t, p);
    RecordInside(p, c, t.nblock, at);
    hide Whole, ZERO, ZeroBlocks;
    t.blkoff := t.ar.pos;
    var bs := t.ar.Read(t.nblock);
    t.first := false;
    if bs == [] {
      return false;
    }
    Load(t, bs);
    RecordIs(p, c, t.nblock, at, bs);
    if |bs| != t.nblock {
      t.done := true;
    }
    ok := true;
  }

  lemma AtRecord(t: Tar, p: seq<Block>)
    requires Reading(t, p) && !t.done && (t.cur == -1 ==> !t.usefile) && (t.cur == -1 || t.cur == t.nblock)
    ensures Whole(Here(t), t.nblock) && t.ar.pos == Here(t) && Record(t) == t.nblock
  {
    hide IsPadded, Exact, ZERO;
    if t.cur != -1 {
      WholeNext(t.blkoff, t.nblock);
    } else {
      assert Whole(0, t.nblock);
    }
  }

  /** A record that the next header is not in is passed over. */
  method PassOver(t: Tar, ghost p: seq<Block>)
    requires Reading(t, p) && !t.done && t.cur == t.nblock && t.nexthdr >= t.ar.pos + t.nblock
    modifies t`blkoff, t.ar`pos
    ensures Fresh(t, p, old(Here(t)), true)
  {
    AtRecord(t, p);
    hide Whole, ZERO;
    t.blkoff := t.ar.pos;
    t.ar.Seek(t.ar.pos + t.nblock);
  }

  /** `refill`. It fails only past the end of the archive. */
  method Refill(t: Tar, justhdr: bool, ghost p: seq<Block>) returns (ok: bool)
    requires Reading(t, p) && (t.cur == -1 || t.cur == t.nblock) && (justhdr ==> t.cur != -1)
    modifies t`nblock, t`blkoff, t`first, t`done, t.ar, t.tpblk
    ensures t.ar.contents == old(t.ar.contents)
    ensures if ok then Fresh(t, p, old(Here(t)), justhdr) else old(Here(t)) >= |p|
    ensures Record(t) == old(Record(t))
  {
    if t.done {
      return false;
    }
    hide Whole, ZERO, IsPadded;
    if t.first && t.usefile {
      ok := FirstRead(t, p);
    } else if justhdr && t.seekable && t.nexthdr >= t.ar.pos + t.nblock {
      PassOver(t, p);
      ok := true;
    } else {
      ok := ReadRecord(t, p);
    }
  }

  /** `getblkrd`. A block before the next header need not be the real one. */
  method GetBlkRd(t: Tar, justhdr: bool, ghost p: seq<Block>) returns (ok: bool, i: nat)
    requires Reading(t, p) && (justhdr ==> t.cur != -1)
    requires (!justhdr ==> t.cur == -1 || t.cur == t.nblock || Exact(t, p))
    modifies t`nblock, t`blkoff, t`first, t`done, t`cur, t.ar, t.tpblk
    ensures t.ar.contents == old(t.ar.contents) && Record(t) == old(Record(t))
    ensures if ok
            then Reading(t, p) && t.cur > 0 && i == t.cur - 1 && t.blkoff + i == old(Here(t))
                 && (!justhdr ==> Exact(t, p))
            else old(Here(t)) >= |p|
  {
    hide Whole, ZERO, IsPadded;
    i := 0;
    ok := true;
    if t.cur == -1 || t.cur >= t.nblock {
      ok := Refill(t, justhdr, p);
      if !ok {
        return;
      }
      t.cur := 0;
    }
    i := t.cur;
    t.cur := t.cur + 1;
  }

  // ---- headers and data ----

  /** What `readhdr` comes back with; the last two end the program. */
  datatype Found = Header(h: Hdr) | Mark | BadHeader | Eof

  /** Between members: the next block is a header. */
  ghost predicate AtHeader(t: Tar, p: seq<Block>)
    reads t, t.ar, t.tpblk
  {
    Reading(t, p) && Here(t) == t.nexthdr
  }

  /** The block at which the next header is. */
  method GetHeader(t: Tar, ghost p: seq<Block>) returns (ok: bool, b: Block)
    requires AtHeader(t, p)
    modifies t`nblock, t`blkoff, t`first, t`done, t`cur, t.ar, t.tpblk
    ensures t.ar.contents == old(t.ar.contents) && Record(t) == old(Record(t))
    ensures if ok then t.nexthdr < |p| && b == p[t.nexthdr] else t.nexthdr >= |p|
    ensures ok ==> Reading(t, p) && t.cur > 0 && Here(t) == t.nexthdr + 1 && Exact(t, p)
  {
    b := ZERO;
    hide IsPadded, Whole, ZERO;
    var i;
    ok, i := GetBlkRd(t, false, p);
    if ok {
      b := t.tpblk[i];
      assert t.tpblk[..t.nblock][i] == p[t.blkoff..t.blkoff + t.nblock][i];
    }
  }

  /** `readhdr`. */
  method ReadHdr(t: Tar, ghost p: seq<Block>) returns (r: Found)
    requires AtHeader(t, p)
    modifies t, t.ar, t.tpblk
    ensures t.ar.contents == old(t.ar.contents) && Record(t) == old(Record(t))
    ensures r == Eof ==> old(t.nexthdr) >= |p|
    ensures r != Eof ==>
              old(t.nexthdr) < |p| && Reading(t, p) && t.cur > 0 && Here(t) == old(t.nexthdr) + 1 && Exact(t, p)
    ensures r != Eof ==>
              var h := FromBlock(p[old(t.nexthdr)]);
              r == if EndMark(h) then Mark else if SumOf(h) != StoredSum(h) then BadHeader else Header(h)
    ensures t.nexthdr == if r.Header? then Next(p[old(t.nexthdr)], old(t.nexthdr)) else old(t.nexthdr)
  {
    hide EndMark, SumOf, StoredSum, ArSize, IsPadded, Whole, ZERO, FromBlock;
    var ok, b := GetHeader(t, p);
    if !ok {
      return Eof;
    }
    var h := FromBlock(b);
    if EndMark(h) {
      return Mark;
    }
    if SumOf(h) != StoredSum(h) {
      return BadHeader;
    }
    t.nexthdr := t.nexthdr + 1 + Blocks(ArSize(h));
    r := Header(h);
  }

  /** The blocks got are used up. */
  method PutReadBlks(t: Tar, blks: nat, ghost p: seq<Block>)
    requires Reading(t, p) && t.cur > 0 && 0 < blks <= t.nblock - (t.cur - 1)
    modifies t`cur
    ensures Reading(t, p) && t.cur == old(t.cur) + blks - 1
  {
    t.cur := t.cur + blks - 1;
  }

  /** `skip`: with or without the seeks, the next block is then the next header. */
  method SkipData(t: Tar, blocks: nat, ghost p: seq<Block>) returns (ok: bool)
    requires Reading(t, p) && t.cur != -1 && Here(t) + blocks == t.nexthdr
    modifies t`nblock, t`blkoff, t`first, t`done, t`cur, t.ar, t.tpblk
    ensures t.ar.contents == old(t.ar.contents) && Record(t) == old(Record(t))
    ensures if ok then AtHeader(t, p) && t.cur != -1 else t.nexthdr > |p|
  {
    hide IsPadded, Whole, ZERO, Loaded, Exact;
    var blksleft := blocks;
    while blksleft > 0
      invariant 0 <= blksleft && Reading(t, p) && t.cur != -1 && Here(t) + blksleft == t.nexthdr
      invariant t.ar.contents == old(t.ar.contents) && Record(t) == old(Record(t))
    {
      var i;
      ok, i := GetBlkRd(t, true, p);
      if !ok {
        return;
      }
      var blksread := t.GotHowMany(blksleft);
      PutReadBlks(t, blksread, p);
      blksleft := blksleft - blksread;
    }
    ok := true;
  }

  /** One round of copying a member's data out. */
  method CopyChunk(t: Tar, blksleft: nat, bytes: nat, ghost p: seq<Block>) returns (ok: bool, k: nat, out: seq<byte>)
    requires Reading(t, p) && t.cur != -1 && Exact(t, p) && blksleft > 0
    modifies t`nblock, t`blkoff, t`first, t`done, t`cur, t.ar, t.tpblk
    ensures t.ar.contents == old(t.ar.contents)
    ensures if !ok then old(Here(t)) >= |p|
            else Reading(t, p) && t.cur != -1 && Exact(t, p) && 0 < k <= blksleft && Here(t) == old(Here(t)) + k <= |p|
    ensures ok ==> |out| == (if TBLOCK * k > bytes then bytes else TBLOCK * k)
    ensures ok ==> out == Flat(p[old(Here(t))..Here(t)])[..|out|]
  {
    hide IsPadded, Whole, ZERO, Loaded, Flat;
    k, out := 0, [];
    ghost var at := Here(t);
    var i;
    ok, i := GetBlkRd(t, false, p);
    if !ok {
      return;
    }
    k := t.GotHowMany(blksleft);
    var bs := t.tpblk[i..i + k];
    assert bs == p[at..at + k] by { SliceOf(t, p, i, k); }
    var wrbytes := if TBLOCK * k > bytes then bytes else TBLOCK * k;
    out := Flat(bs)[..wrbytes];
    PutReadBlks(t, k, p);
  }

  lemma SliceOf(t: Tar, p: seq<Block>, i: nat, k: nat)
    requires Exact(t, p) && i + k <= t.nblock
    ensures t.tpblk[i..i + k] == p[t.blkoff + i..t.blkoff + i + k]
  {
    var a, b := t.tpblk[..t.nblock], p[t.blkoff..t.blkoff + t.nblock];
    SubSlice(p, t.blkoff, t.nblock, i, k);
    assert t.tpblk[i..i + k] == a[i..i + k];
  }

  lemma SubSlice(p: seq<Block>, x: nat, n: nat, i: nat, k: nat)
    requires x + n <= |p| && i + k <= n
    ensures p[x..x + n][i..i + k] == p[x + i..x + i + k]
  {
    var u, v := p[x..x + n][i..i + k], p[x + i..x + i + k];
    forall j | 0 <= j < k ensures u[j] == v[j] {
    }
  }

  /** `extract1` copying a member's data: all of it, or the archive is cut short. */
  method CopyData(t: Tar, size: nat, ghost p: seq<Block>) returns (ok: bool, data: seq<byte>)
    requires Reading(t, p) && t.cur != -1 && Exact(t, p) && Here(t) + Blocks(size) == t.nexthdr
    modifies t`nblock, t`blkoff, t`first, t`done, t`cur, t.ar, t.tpblk
    ensures t.ar.contents == old(t.ar.contents)
    ensures if ok then AtHeader(t, p) && t.cur != -1 && t.nexthdr <= |p| && |data| == size
                       && data == Flat(p[old(Here(t))..t.nexthdr])[..|data|]
            else t.nexthdr > |p|
  {
    ghost var start := Here(t);
    assert start <= |p|;
    hide IsPadded, Whole, ZERO, Loaded, Exact, Reading, Here, Copied, Flat, Blocks;
    var blksleft, bytes := Blocks(size), size;
    data := [];
    NoneCopied(p, start, size);
    while blksleft > 0
      invariant 0 <= blksleft && 0 <= bytes && Reading(t, p) && t.cur != -1 && Exact(t, p)
      invariant Here(t) + blksleft == t.nexthdr
      invariant t.ar.contents == old(t.ar.contents) && Copied(p, start, Here(t), data, size) && bytes == size - |data|
    {
      ghost var at := Here(t);
      var k, out;
      ok, k, out := CopyChunk(t, blksleft, bytes, p);
      if !ok {
        return;
      }
      MoreCopied(p, start, at, k, data, out, size);
      data := data + out;
      bytes := bytes - |out|;
      blksleft := blksleft - k;
    }
    AllCopied(p, start, t.nexthdr, data, size);
    ok := true;
  }

  /** What has been copied when the blocks up to `at` are used up. */
  ghost predicate Copied(p: seq<Block>, start: nat, at: nat, data: seq<byte>, size: nat) {
    && start <= at <= |p| && |data| <= size && |data| <= TBLOCK * (at - start)
    && (|data| == size || |data| == TBLOCK * (at - start))
    && data == Flat(p[start..at])[..|data|]
  }

  lemma NoneCopied(p: seq<Block>, start: nat, size: nat)
    requires start <= |p|
    ensures Copied(p, start, start, [], size)
  {
    assert p[start..start] == [];
  }

  lemma MoreCopied(p: seq<Block>, start: nat, at: nat, k: nat, data: seq<byte>, out: seq<byte>, size: nat)
    requires Copied(p, start, at, data, size) && at + k <= |p|
    requires var left := size - |data|; |out| == (if TBLOCK * k > left then left else TBLOCK * k)
    requires out == Flat(p[at..at + k])[..|out|]
    ensures Copied(p, start, at + k, data + out, size)
  {
    var a, b := p[start..at], p[at..at + k];
    assert p[start..at + k] == a + b;
    FlatAdd(a, b);
    hide Flat;
    if out == [] {
      assert data + out == data && (Flat(a) + Flat(b))[..|data|] == Flat(a)[..|data|];
    } else {
      assert (Flat(a) + Flat(b))[..|data| + |out|] == Flat(a) + Flat(b)[..|out|];
    }
  }

  lemma AllCopied(p: seq<Block>, start: nat, next: nat, data: seq<byte>, size: nat)
    requires Copied(p, start, next, data, size) && next == start + Blocks(size)
    ensures |data| == size && start <= next <= |p| && data == Flat(p[start..next])[..|data|]
  {
    Room(size);
  }

  // ---- whole runs ----

  /** What became of a member's data: copied out, passed over, or not all there. */
  datatype Fate = Taken(data: seq<byte>) | Skipped | Missing

  /**
   * What is asked of the archive: the headers whose names are matched, and of those the ones for
   * which there is a file to copy to. In a listing there is none.
   */
  datatype Want = Want(matched: Hdr -> bool, toFile: Hdr -> bool) {
    /** Links and fifos are not made. */
    predicate Copies(h: Hdr) { matched(h) && toFile(h) && !IsLink(h) && !IsFifo(h) }

    /**
     * A fifo that is matched is taken to have no data, listed or extracted, but the next header
     * is looked for after what its length says.
     */
    predicate Strays(h: Hdr)
      requires |h.size| == 12 && h.name != [] && h.prefix != []
    { matched(h) && IsFifo(h) && ArSize(h) > 0 }
  }

  /** In the bytes of the header: flags '1', '2', 's' and '6' are not copied out, and '6' may stray. */
  lemma WantIs(want: Want, b: Block)
    ensures var h := FromBlock(b);
            && (want.Copies(h) <==> want.matched(h) && want.toFile(h) && b[156] !in {49, 50, 115, 54})
            && (want.Strays(h) <==> want.matched(h) && b[156] == 54 && ArSize(h) > 0)
  {
    KindIs(b);
    hide FromBlock, ArSize, IsLink, IsFifo;
  }

  /** Some header found from every-block reading is such a fifo's. */
  ghost predicate AnyStrays(p: seq<Block>, at: seq<nat>, want: Want) {
    exists k :: 0 <= k < |at| && at[k] < |p| && want.Strays(FromBlock(p[at[k]]))
  }

  /** What a run must report of the member whose header is at `at`. */
  ghost predicate Reported(p: seq<Block>, at: nat, h: Hdr, c: Fate, want: Want) {
    && at < |p| && h == FromBlock(p[at]) && !want.Strays(h)
    && c == if !want.Copies(h) then Skipped else if Next(p[at], at) <= |p| then Taken(DataAt(p, at)) else Missing
  }

  ghost predicate AllReported(p: seq<Block>, at: seq<nat>, hs: seq<Hdr>, cs: seq<Fate>, want: Want) {
    |at| == |hs| == |cs| && forall k :: 0 <= k < |hs| ==> Reported(p, at[k], hs[k], cs[k], want)
  }

  /** The headers before `next` were found at `at`. */
  ghost predicate SoFar(p: seq<Block>, at: seq<nat>, next: nat) {
    Scan(p, 0) == (at + Scan(p, next).0, Scan(p, next).1)
  }

  lemma SoFarStart(p: seq<Block>)
    ensures SoFar(p, [], 0)
  {
    assert [] + Scan(p, 0).0 == Scan(p, 0).0;
  }

  lemma SoFarMore(p: seq<Block>, at: seq<nat>, next: nat)
    requires SoFar(p, at, next) && next < |p|
    requires var h := FromBlock(p[next]); !EndMark(h) && SumOf(h) == StoredSum(h)
    ensures SoFar(p, at + [next], Next(p[next], next))
  {
    hide EndMark, SumOf, StoredSum, FromBlock, Next;
    var rest := Scan(p, Next(p[next], next)).0;
    assert Scan(p, next).0 == [next] + rest;
    assert at + ([next] + rest) == (at + [next]) + rest;
  }

  lemma SoFarEnd(p: seq<Block>, at: seq<nat>, next: nat, end: End)
    requires SoFar(p, at, next) && Scan(p, next) == ([], end)
    ensures Scan(p, 0) == (at, end)
  {
    assert at + [] == at;
  }

  lemma ScanEnds(p: seq<Block>, next: nat)
    ensures next >= |p| ==> Scan(p, next) == ([], Truncated)
    ensures next < |p| && EndMark(FromBlock(p[next])) ==> Scan(p, next) == ([], AtMark(next))
    ensures next < |p| && !EndMark(FromBlock(p[next])) && SumOf(FromBlock(p[next])) != StoredSum(FromBlock(p[next])) ==>
              Scan(p, next) == ([], BadSum)
  {
    hide EndMark, SumOf, StoredSum, FromBlock, Next;
  }

  /** A header and, when wanted, its data. A fifo that strays leaves the next block, not the next header, to be read. */
  method OneMember(t: Tar, want: Want, ghost p: seq<Block>)
    returns (h: Option<Hdr>, c: Fate, end: End, over: bool)
    requires AtHeader(t, p)
    modifies t, t.ar, t.tpblk
    ensures t.ar.contents == old(t.ar.contents)
    ensures h == None ==> over && Scan(p, old(t.nexthdr)) == ([], end)
    ensures h != None ==>
              && old(t.nexthdr) < |p| && t.nexthdr == Next(p[old(t.nexthdr)], old(t.nexthdr))
              && (var b := FromBlock(p[old(t.nexthdr)]); h.value == b && !EndMark(b) && SumOf(b) == StoredSum(b))
              && if want.Strays(h.value) then !over && Here(t) == old(t.nexthdr) + 1 < t.nexthdr
                 else Reported(p, old(t.nexthdr), h.value, c, want)
                      && if over then t.nexthdr > |p| && end == Truncated else AtHeader(t, p)
  {
    ghost var next := t.nexthdr;
    ScanEnds(p, next);
    hide IsPadded, Whole, ZERO, Loaded, Exact, Reading, EndMark, SumOf, StoredSum, FromBlock, Scan, Want.Strays,
      Reported, Next;
    h, c, end, over := None, Skipped, Truncated, true;
    var r := ReadHdr(t, p);
    match r {
      case Eof =>
      case Mark => end := AtMark(t.nexthdr);
      case BadHeader => end := BadSum;
      case Header(hp) =>
        h := Some(hp);
        c, over := TakeMember(t, hp, want, p, next);
    }
  }

  /** `extract1` or `skip` of the member whose header is at `at`. */
  method TakeMember(t: Tar, h: Hdr, want: Want, ghost p: seq<Block>, ghost at: nat) returns (c: Fate, over: bool)
    requires Reading(t, p) && t.cur != -1 && Exact(t, p)
    requires at < |p| && h == FromBlock(p[at]) && Here(t) == at + 1 && t.nexthdr == Next(p[at], at)
    modifies t`nblock, t`blkoff, t`first, t`done, t`cur, t.ar, t.tpblk
    ensures t.ar.contents == old(t.ar.contents)
    ensures if want.Strays(h) then !over && Here(t) == at + 1 < t.nexthdr
            else Reported(p, at, h, c, want) && if over then t.nexthdr > |p| else AtHeader(t, p)
  {
    hide IsPadded, Whole, ZERO, Loaded, Exact, Reading, FromBlock, Want.Strays, Want.Copies, Flat, Blocks, ArSize;
    if want.Strays(h) {
      c, over := Taken([]), false;
      SomeBlocks(h, want);
    } else {
      c, over := TakeOrSkip(t, ArSize(h), want.Copies(h), p);
    }
  }

  lemma SomeBlocks(h: Hdr, want: Want)
    requires |h.size| == 12 && h.name != [] && h.prefix != [] && want.Strays(h)
    ensures Blocks(ArSize(h)) > 0
  {
  }

  method TakeOrSkip(t: Tar, size: nat, wanted: bool, ghost p: seq<Block>) returns (c: Fate, over: bool)
    requires Reading(t, p) && t.cur != -1 && Exact(t, p) && Here(t) + Blocks(size) == t.nexthdr
    modifies t`nblock, t`blkoff, t`first, t`done, t`cur, t.ar, t.tpblk
    ensures t.ar.contents == old(t.ar.contents) && if over then t.nexthdr > |p| else AtHeader(t, p)
    ensures !wanted ==> c == Skipped
    ensures wanted && t.nexthdr > |p| ==> c == Missing
    ensures wanted && t.nexthdr <= |p| ==>
              && c.Taken? && |c.data| == size && |c.data| <= TBLOCK * (t.nexthdr - old(Here(t)))
              && c.data == Flat(p[old(Here(t))..t.nexthdr])[..|c.data|]
  {
    Room(size);
    hide IsPadded, Whole, ZERO, Loaded, Exact, Reading, Flat, Blocks;
    c := Skipped;
    if wanted {
      var ok, data := CopyData(t, size, p);
      over := !ok;
      c := if ok then Taken(data) else Missing;
    } else {
      var ok := SkipData(t, Blocks(size), p);
      over := !ok;
    }
  }

  /**
   * `extract`, for listing and for extracting: whatever is wanted and however much is passed
   * over by seeking, the headers and the way the run ends are those of looking at every block,
   * and the data copied out is what the archive holds. That is so exactly when no fifo that is
   * matched has a length: at the first of those the run strays from the headers.
   */
  method Extract(t: Tar, want: Want, ghost p: seq<Block>)
    returns (hs: seq<Hdr>, cs: seq<Fate>, end: End, stray: bool, ghost at: seq<nat>)
    requires AtHeader(t, p) && t.nexthdr == 0
    modifies t, t.ar, t.tpblk
    ensures t.ar.contents == old(t.ar.contents)
    ensures stray <==> AnyStrays(p, Scan(p, 0).0, want)
    ensures AllReported(p, at, hs, cs, want)
    ensures if !stray then Scan(p, 0) == (at, end)
            else |at| < |Scan(p, 0).0| && at == Scan(p, 0).0[..|at|]
                 && var last := Scan(p, 0).0[|at|]; last < |p| && Here(t) == last + 1 < Next(p[last], last)
  {
    hide AtHeader, Reading, IsPadded, Whole, ZERO, Loaded, Exact, EndMark, SumOf, StoredSum, FromBlock, Reported,
      Scan, SoFar, Want.Strays, AnyStrays;
    hs, cs, at, stray := [], [], [], false;
    SoFarStart(p);
    while true
      invariant AtHeader(t, p) && t.ar.contents == old(t.ar.contents)
      invariant SoFar(p, at, t.nexthdr) && AllReported(p, at, hs, cs, want)
      decreases |p| - t.nexthdr
    {
      ghost var next := t.nexthdr;
      ScanEnds(p, next);
      var h, c, over;
      h, c, end, over := OneMember(t, want, p);
      if over && h == None {
        SoFarEnd(p, at, next, end);
        NoneStrays(p, at, hs, cs, want);
        return;
      }
      SoFarMore(p, at, next);
      if want.Strays(h.value) {
        stray := true;
        StraysAt(p, at, next, want);
        return;
      }
      at := at + [next];
      hs, cs := hs + [h.value], cs + [c];
      if over {
        ScanEnds(p, t.nexthdr);
        SoFarEnd(p, at, t.nexthdr, end);
        NoneStrays(p, at, hs, cs, want);
        return;
      }
    }
  }

  lemma NoneStrays(p: seq<Block>, at: seq<nat>, hs: seq<Hdr>, cs: seq<Fate>, want: Want)
    requires AllReported(p, at, hs, cs, want)
    ensures !AnyStrays(p, at, want)
  {
    hide FromBlock, DataAt, Next, Want.Strays;
    forall k | 0 <= k < |at| && at[k] < |p| ensures !want.Strays(FromBlock(p[at[k]])) {
      assert Reported(p, at[k], hs[k], cs[k], want);
    }
  }

  lemma StraysAt(p: seq<Block>, at: seq<nat>, next: nat, want: Want)
    requires next < |p| && SoFar(p, at + [next], Next(p[next], next))
    requires want.Strays(FromBlock(p[next]))
    ensures var all := Scan(p, 0).0; |at| < |all| && at == all[..|at|] && all[|at|] == next && AnyStrays(p, all, want)
  {
    hide FromBlock, Next, Want.Strays, Scan;
    var all, rest := Scan(p, 0).0, Scan(p, Next(p[next], next)).0;
    assert all == at + [next] + rest;
    assert all[|at|] == next;
  }

  /** An archive of one header, a fifo's with a length: even a listing of all names strays at it. */
  method StrayingFifo() returns (p: seq<Block>)
    ensures |p| == 1 && Scan(p, 0) == ([0], Truncated) && AnyStrays(p, [0], Want(h => true, h => false))
  {
    var h := PutNumbers(Entry([102], false, 0, 0, 0, 1, 0, [], []));
    h := h.(name := [102] + Zeros(99), linkflag := LF_FIFO);
    h := PutSum(h);
    FifoIs(h);
    BlockFields(h);
    hide *;
    var b: Block := ToBlock(h);
    p := [b];
    FifoScan(p, b, h);
  }

  lemma FifoIs(h: Hdr)
    requires Sized(h) && h.name == [102] + Zeros(99) && h.prefix == Zeros(155) && h.linkflag == LF_FIFO
    requires h.mode == Right(0, 6) + [SPACE, 0] && h.size == Right(1, 11) + [SPACE]
    requires h.size[0] != BINNEGSZ && h.size[0] != BINSIZE
    ensures IsFifo(h) && !EndMark(h) && ArSize(h) == 1
  {
    ModeReads(h, 0);
    SizeReads(h, 1);
    hide OctalOf, HdrSize, Tail, Right;
    assert h.name[0] == 102 && h.name[99] == 0 && h.name[1..][0] == 0;
    assert StrLen(h.name[1..]) == 0 && FieldText(h.name) == [102];
  }

  lemma FifoScan(p: seq<Block>, b: Block, h: Hdr)
    requires p == [b] && Sized(h) && FromBlock(b) == h && IsFifo(h) && !EndMark(h) && ArSize(h) == 1
    requires SumOf(h) == StoredSum(h)
    ensures Scan(p, 0) == ([0], Truncated) && AnyStrays(p, [0], Want(h => true, h => false))
  {
    hide FromBlock, EndMark, SumOf, StoredSum, ArSize, IsFifo;
    assert Blocks(1) == 1;
    ScanEnds(p, 2);
    assert [0] + [] == [0];
    assert Want(h => true, h => false).Strays(FromBlock(p[0]));
    var at := [0];
    assert at[0] == 0;
  }

  // ---- written, then read ----

  /** The zeros of the last record do not change what an archive holds. */
  lemma PaddedArchive(p: seq<Block>, c: seq<Block>, nblock: nat, ms: seq<Member>)
    requires IsPadded(p, c, nblock) && Archive(c, ms)
    ensures Archive(p, ms)
  {
    hide ZERO, Whole, MemberBlocks;
    var n := Spans(ms);
    assert p[..|c|][n] == p[n] && p[..|c|][n + 1] == p[n + 1];
    assert p[..n] == p[..|c|][..n];
    StoredFront(c, p, ms);
  }

  /** Any archive has a padded form. */
  lemma PadExists(c: seq<Block>, nblock: nat) returns (p: seq<Block>)
    requires nblock > 0
    ensures IsPadded(p, c, nblock)
  {
    var r := |c| % nblock;
    DivModProps(|c|, nblock);
    if r == 0 {
      p := c;
    } else {
      p := c + ZeroBlocks(nblock - r);
      var q := |c| / nblock;
      assert (q + 1) * nblock == q * nblock + nblock;
      DivModUnique(|p|, nblock, q + 1, 0);
    }
  }

  /** The k-th header and data are the k-th member's. */
  ghost predicate Restored(h: Hdr, c: Fate, m: Member, wanted: bool) {
    && Sized(h) && NameOf(h) == FullName(m.entry) && HdrSize(h) == m.entry.length && IsDir(h) == m.entry.dir
    && Attributes(h, m.entry) && c == if wanted then Taken(m.data) else Skipped
  }

  lemma MembersRestored(p: seq<Block>, ms: seq<Member>, posix: bool, at: seq<nat>, hs: seq<Hdr>, cs: seq<Fate>,
      want: Want, end: End)
    requires Archive(p, ms) && forall m :: m in ms ==> Sound(m, posix)
    requires Scan(p, 0) == (at, end) && AllReported(p, at, hs, cs, want)
    ensures end == AtMark(Spans(ms)) && |hs| == |cs| == |ms|
    ensures forall k :: 0 <= k < |ms| ==> Restored(hs[k], cs[k], ms[k], want.matched(hs[k]) && want.toFile(hs[k]))
  {
    ArchiveReads(p, ms, posix);
    hide Scan, Archive, Spans, Sound, NameOf, HdrSize, IsDir, IsLink, IsFifo, FromBlock, DataAt, Next, Describes;
    forall k | 0 <= k < |ms| ensures Restored(hs[k], cs[k], ms[k], want.matched(hs[k]) && want.toFile(hs[k])) {
      assert Reported(p, at[k], hs[k], cs[k], want);
      DescribedIs(FromBlock(p[at[k]]), ms[k].entry);
    }
  }

  /** None of the members of an archive is a fifo. */
  lemma NoFifos(p: seq<Block>, ms: seq<Member>, posix: bool, want: Want)
    requires Archive(p, ms) && forall m :: m in ms ==> Sound(m, posix)
    ensures !AnyStrays(p, Scan(p, 0).0, want)
  {
    ArchiveReads(p, ms, posix);
    hide Scan, Archive, Spans, Sound, NameOf, HdrSize, IsDir, IsFifo, FromBlock, DataAt, Next, ArSize, Describes;
    forall k | 0 <= k < |ms|
      ensures !want.Strays(FromBlock(p[Positions(ms)[k]]))
    {
      DescribedIs(FromBlock(p[Positions(ms)[k]]), ms[k].entry);
    }
  }

  /** Reading an archive from its start, in any blocking and with or without seeking. */
  method ReadBack(f: ArFile, named: bool, canSeek: bool, blocking: nat, want: Want,
      ghost ms: seq<Member>, ghost posix: bool)
    returns (hs: seq<Hdr>, cs: seq<Fate>, end: End)
    requires blocking > 0 && Archive(f.contents, ms) && forall m :: m in ms ==> Sound(m, posix)
    modifies f
    ensures end.AtMark? && |hs| == |cs| == |ms| && f.contents == old(f.contents)
    ensures forall k :: 0 <= k < |ms| ==> Restored(hs[k], cs[k], ms[k], want.matched(hs[k]) && want.toFile(hs[k]))
  {
    hide Sound, Archive, Restored, Scan, ZERO;
    f.Seek(0);
    var r := new Tar(f, named, canSeek, blocking);
    ghost var p := PadExists(f.contents, Record(r));
    PaddedArchive(p, f.contents, Record(r), ms);
    NoFifos(p, ms, posix, want);
    hide IsPadded, AnyStrays;
    var stray;
    ghost var at;
    hs, cs, end, stray, at := Extract(r, want, p);
    MembersRestored(p, ms, posix, at, hs, cs, want, end);
  }

  /** Main theorem: what `tar c` wrote, `tar t` and `tar x` find, in any blocking and with or without seeking. */
  method RoundTrip(ms: seq<Member>, posix: bool, blocking: nat, readBlocking: nat,
      named: bool, canSeek: bool, want: Want)
    returns (hs: seq<Hdr>, cs: seq<Fate>, end: End)
    requires blocking > 0 && readBlocking > 0
    requires forall m :: m in ms ==> Sound(m, posix)
    ensures end.AtMark? && |hs| == |cs| == |ms|
    ensures forall k :: 0 <= k < |ms| ==> Restored(hs[k], cs[k], ms[k], want.matched(hs[k]) && want.toFile(hs[k]))
  {
    hide Sound, Archive, Restored, ZERO;
    var f := new ArFile([]);
    var w := new Tar(f, true, true, blocking);
    w.Create(ms, posix);
    hs, cs, end := ReadBack(f, named, canSeek, readBlocking, want, ms, posix);
  }

  // ---- appending ----

  lemma AfterRead(t: Tar, p: seq<Block>)
    requires Reading(t, p) && t.cur > 0
    ensures Record(t) == t.nblock
  {
  }

  /** `tar r`, skipping to the end mark: it is found if every-block reading finds it. */
  method SkipToEnd(t: Tar, ghost p: seq<Block>) returns (ok: bool)
    requires AtHeader(t, p) && t.nexthdr == 0
    modifies t, t.ar, t.tpblk
    ensures t.ar.contents == old(t.ar.contents) && (ok <==> Scan(p, 0).1.AtMark?)
    ensures ok ==> t.nblock == old(Record(t))
    ensures ok ==> Reading(t, p) && Exact(t, p) && t.cur > 0 && t.blkoff + t.cur - 1 == Scan(p, 0).1.at < |p|
  {
    hide IsPadded, Whole, ZERO, Loaded, Exact, Reading, EndMark, SumOf, StoredSum, FromBlock, Scan;
    while true
      invariant AtHeader(t, p) && t.ar.contents == old(t.ar.contents) && Scan(p, 0).1 == Scan(p, t.nexthdr).1
      invariant Record(t) == old(Record(t))
      decreases |p| - t.nexthdr
    {
      ghost var next := t.nexthdr;
      ScanEnds(p, next);
      var r := ReadHdr(t, p);
      if !r.Header? {
        if r == Mark {
          AfterRead(t, p);
        }
        return r == Mark;
      }
      ScanNext(p, next);
      ok := SkipData(t, Blocks(ArSize(r.h)), p);
      if !ok {
        ScanEnds(p, t.nexthdr);
        return;
      }
    }
  }

  lemma ScanNext(p: seq<Block>, next: nat)
    requires next < |p|
    requires var h := FromBlock(p[next]); !EndMark(h) && SumOf(h) == StoredSum(h)
    ensures Scan(p, next).1 == Scan(p, Next(p[next], next)).1
  {
    hide EndMark, SumOf, StoredSum, FromBlock, Next;
  }

  /** The last record is gone back over, but what is in it before the mark stays in the ring. */
  method BackToMark(t: Tar, ghost p: seq<Block>, ghost ms: seq<Member>)
    requires Reading(t, p) && Exact(t, p) && t.cur > 0 && t.blkoff + t.cur - 1 == Spans(ms)
    requires Archive(t.ar.contents, ms)
    modifies t`cur, t.ar`pos
    ensures t.Writing() && Stored(t.Out(), ms) && |t.Out()| == Spans(ms)
  {
    ghost var c, n := t.ar.contents, Spans(ms);
    hide MemberBlocks, ZERO, Spans, Whole;
    t.ar.Seek(t.blkoff);
    t.cur := t.cur - 1;
    SliceOf(t, p, 0, t.cur);
    assert t.Pending() == p[t.blkoff..n];
    StartIs(p, c, t.blkoff, n);
    assert t.Out() == c[..n];
    StoredFront(c, c[..n], ms);
  }

  lemma StartIs(p: seq<Block>, c: seq<Block>, at: nat, n: nat)
    requires at <= n <= |c| <= |p| && p[..|c|] == c
    ensures c[..at] + p[at..n] == c[..n]
  {
    assert forall j :: 0 <= j < n ==> p[j] == p[..|c|][j];
  }

  /**
   * `tar r`: the archive then holds the old members followed by the new. What was written ends
   * with just enough whole records, and only an archive that went on behind is longer.
   */
  method Append(t: Tar, more: seq<Member>, posix: bool, ghost p: seq<Block>,
      ghost ms: seq<Member>, ghost wasPosix: bool)
    requires AtHeader(t, p) && t.nexthdr == 0
    requires Archive(t.ar.contents, ms) && forall m :: m in ms ==> Sound(m, wasPosix)
    requires forall m :: m in more ==> Sound(m, posix)
    modifies t, t.ar, t.tpblk
    ensures Archive(t.ar.contents, ms + more)
    ensures t.nblock == old(Record(t)) && Whole(t.ar.pos, t.nblock)
    ensures Spans(ms + more) + 2 <= t.ar.pos < Spans(ms + more) + 2 + t.nblock
    ensures |t.ar.contents| == if t.ar.pos > old(|t.ar.contents|) then t.ar.pos else old(|t.ar.contents|)
  {
    hide *;
    FindMark(t, p, ms, wasPosix);
    ghost var p0, len := t.ar.pos, |t.ar.contents|;
    t.AddAll(more, posix, ms);
    t.GrownSize(p0, len);
    t.WholeWritten();
  }

  /** `replace` up to where members are added on. */
  method FindMark(t: Tar, ghost p: seq<Block>, ghost ms: seq<Member>, ghost posix: bool)
    requires AtHeader(t, p) && t.nexthdr == 0
    requires Archive(t.ar.contents, ms) && forall m :: m in ms ==> Sound(m, posix)
    modifies t, t.ar, t.tpblk
    ensures t.Writing() && Stored(t.Out(), ms) && |t.Out()| == Spans(ms)
    ensures t.ar.contents == old(t.ar.contents) && t.nblock == old(Record(t))
  {
    PaddedArchive(p, t.ar.contents, Record(t), ms);
    ArchiveReads(p, ms, posix);
    hide Sound, Scan, ZERO, Lists, Archive;
    var ok := SkipToEnd(t, p);
    BackToMark(t, p, ms);
  }

  /** Whole numbers of records that hold as much and are just enough are the same for more. */
  lemma LongerWhole(x: nat, lx: nat, y: nat, ly: nat, n: nat)
    requires Whole(lx, n) && Whole(ly, n) && x <= y && lx < x + n && y <= ly
    ensures lx <= ly
  {
    if ly < lx {
      WholeOrder(ly, lx, n);
    }
  }

  /** What was created and then appended to is read back whole; in one blocking throughout it is just enough records. */
  method AppendRoundTrip(ms: seq<Member>, more: seq<Member>, posix: bool, posix': bool,
      blocking: nat, appendBlocking: nat, readBlocking: nat, named: bool, canSeek: bool, want: Want)
    returns (hs: seq<Hdr>, cs: seq<Fate>, end: End, length: nat)
    requires blocking > 0 && appendBlocking > 0 && readBlocking > 0
    requires (forall m :: m in ms ==> Sound(m, posix)) && forall m :: m in more ==> Sound(m, posix')
    ensures end.AtMark? && |hs| == |cs| == |ms + more|
    ensures forall k :: 0 <= k < |ms + more| ==>
              Restored(hs[k], cs[k], (ms + more)[k], want.matched(hs[k]) && want.toFile(hs[k]))
    ensures appendBlocking == blocking ==>
              Whole(length, blocking) && Spans(ms + more) + 2 <= length < Spans(ms + more) + 2 + blocking
  {
    var f := new ArFile([]);
    length := CreateAndAppend(f, ms, more, posix, posix', blocking, appendBlocking, canSeek);
    forall m | m in ms + more ensures Sound(m, true) {
    }
    hide Sound, Archive, Restored, Spans, Whole, ZERO;
    hs, cs, end := ReadBack(f, named, canSeek, readBlocking, want, ms + more, true);
  }

  method CreateAndAppend(f: ArFile, ms: seq<Member>, more: seq<Member>, posix: bool, posix': bool,
      blocking: nat, appendBlocking: nat, canSeek: bool)
    returns (length: nat)
    requires f.contents == [] && f.pos == 0 && blocking > 0 && appendBlocking > 0
    requires (forall m :: m in ms ==> Sound(m, posix)) && forall m :: m in more ==> Sound(m, posix')
    modifies f
    ensures Archive(f.contents, ms + more) && length == |f.contents|
    ensures appendBlocking == blocking ==>
              Whole(length, blocking) && Spans(ms + more) + 2 <= length < Spans(ms + more) + 2 + blocking
  {
    hide Sound, Archive, Spans, ZERO;
    var w := new Tar(f, true, true, blocking);
    w.Create(ms, posix);
    ghost var n := |f.contents|;
    f.Seek(0);
    var t := new Tar(f, true, canSeek, appendBlocking);
    ghost var r := Record(t);
    ghost var p := PadExists(f.contents, r);
    hide IsPadded;
    Append(t, more, posix', p, ms, posix);
    length := |f.contents|;
    if appendBlocking == blocking {
      OneRecord(n, blocking);
      SpansPrefix(ms, more);
      LongerWhole(Spans(ms) + 2, n, Spans(ms + more) + 2, f.pos, blocking);
    }
  }

  lemma OneRecord(n: nat, blocking: nat)
    requires Whole(n, blocking) && n > 0
    ensures n >= blocking
  {
    WholeOrder(0, n, blocking);
  }

  lemma SpansPrefix(ms: seq<Member>, more: seq<Member>)
    ensures Spans(ms) <= Spans(ms + more)
  {
    SpansMono(ms + more, |ms|);
    assert (ms + more)[..|ms|] == ms;
  }
}
