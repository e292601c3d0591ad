/** What a tar archive is, as blocks, and what there is to read in one. */
module TarFormat {
  import opened Bytes
  import opened TarHeader

  /** A member: a directory has no data. */
  datatype Member = Member(entry: Entry, data: seq<byte>)

  ghost predicate Sound(m: Member, posix: bool) {
    && Ordinary(m.entry) && Fits(FullName(m.entry), posix)
    && if m.entry.dir then m.data == [] else |m.data| == m.entry.length
  }

  function Flat(bs: seq<Block>): (s: seq<byte>)
    ensures |s| == TBLOCK * |bs|
  {
    if bs == [] then [] else Flat(bs[..|bs| - 1]) + bs[|bs| - 1]
  }

  lemma FlatSnoc(bs: seq<Block>, b: Block)
    ensures Flat(bs + [b]) == Flat(bs) + b
  {
    assert (bs + [b])[..|bs|] == bs;
  }

  lemma {:induction false} FlatAdd(a: seq<Block>, b: seq<Block>)
    ensures Flat(a + b) == Flat(a) + Flat(b)
    decreases |b|
  {
    if b == [] {
      assert a + b == a;
    } else {
      var init, last := b[..|b| - 1], b[|b| - 1];
      FlatAdd(a, init);
      FlatSnoc(a + init, last);
      assert a + b == (a + init) + [last];
      assert Flat(a) + (Flat(init) + last) == (Flat(a) + Flat(init)) + last;
    }
  }

  lemma FlatGrow(had: seq<Block>, b: Block, data: seq<byte>, off: nat, at: nat)
    requires off <= at && at + TBLOCK <= |data| && Flat(had) == data[off..at] && b == data[at..at + TBLOCK]
    ensures Flat(had + [b]) == data[off..at + TBLOCK]
  {
    FlatSnoc(had, b);
    hide Flat;
    assert data[off..at] + data[at..at + TBLOCK] == data[off..at + TBLOCK];
  }

  lemma FlatPartial(had: seq<Block>, b: Block, x: seq<byte>, part: seq<byte>)
    requires Flat(had) == x && |part| <= TBLOCK && b[..|part|] == part
    ensures |x| + |part| <= |Flat(had + [b])| && Flat(had + [b])[..|x| + |part|] == x + part
  {
    FlatSnoc(had, b);
    assert (x + b)[..|x| + |part|] == x + b[..|part|];
  }

  /** Enough blocks that begin with the data; what fills up the last one does not matter. */
  ghost predicate DataIn(bs: seq<Block>, data: seq<byte>) {
    |bs| == Blocks(|data|) && |data| <= TBLOCK * |bs| && Flat(bs)[..|data|] == data
  }

  /** Part of the data is in whole blocks, the last of which may be the last of all. */
  ghost predicate DataPart(ds: seq<Block>, data: seq<byte>, off: nat) {
    && off <= |data| && off <= TBLOCK * |ds| && Flat(ds)[..off] == data[..off]
    && |ds| + Blocks(|data| - off) == Blocks(|data|) && (off < |data| ==> off == TBLOCK * |ds|)
  }

  lemma NoData(data: seq<byte>)
    ensures DataPart([], data, 0)
  {
  }

  lemma MoreData(ds: seq<Block>, more: seq<Block>, data: seq<byte>, off: nat, n: nat)
    requires DataPart(ds, data, off) && off < |data| && |more| <= Blocks(|data| - off)
    requires n <= |data| - off && n <= TBLOCK * |more| && (n == TBLOCK * |more| || n == |data| - off)
    requires Flat(more)[..n] == data[off..off + n]
    ensures DataPart(ds + more, data, off + n)
  {
    FlatAdd(ds, more);
    BlocksLess(|data| - off, |more|, n);
    hide Flat, Blocks;
    Fronts(Flat(ds), Flat(more), data, off, n);
  }

  lemma Fronts(f: seq<byte>, g: seq<byte>, data: seq<byte>, off: nat, n: nat)
    requires off + n <= |data| && |f| >= off && n <= |g| && (n > 0 ==> |f| == off) && f[..off] == data[..off]
    requires g[..n] == data[off..off + n]
    ensures (f + g)[..off + n] == data[..off + n]
  {
    if n > 0 {
      assert (f + g)[..off + n] == f + g[..n];
      assert data[..off + n] == data[..off] + data[off..off + n];
    } else {
      assert (f + g)[..off] == f[..off];
    }
  }

  lemma BlocksLess(r: nat, k: nat, n: nat)
    requires r > 0 && k <= Blocks(r) && n <= r && n <= TBLOCK * k && (n == TBLOCK * k || n == r)
    ensures k + Blocks(r - n) == Blocks(r)
  {
    Room(r);
    Room(r - n);
  }

  lemma AllData(ds: seq<Block>, data: seq<byte>, off: nat)
    requires DataPart(ds, data, off) && Blocks(|data| - off) == 0
    ensures DataIn(ds, data)
  {
    Room(|data| - off);
    assert data[..off] == data;
  }

  function Span(m: Member): nat { 1 + Blocks(|m.data|) }

  ghost predicate MemberBlocks(bs: seq<Block>, m: Member) {
    |bs| == Span(m) && Describes(FromBlock(bs[0]), m.entry) && DataIn(bs[1..], m.data)
  }

  function Spans(ms: seq<Member>): nat {
    if ms == [] then 0 else Spans(ms[..|ms| - 1]) + Span(ms[|ms| - 1])
  }

  /** The k-th member is where the ones before it end. */
  ghost predicate InPlace(bs: seq<Block>, ms: seq<Member>, k: nat)
    requires k < |ms|
  {
    var at, next := Spans(ms[..k]), Spans(ms[..k + 1]);
    at <= next <= |bs| && MemberBlocks(bs[at..next], ms[k])
  }

  /** The blocks of the members, one after the other, at the front of bs. */
  ghost predicate Stored(bs: seq<Block>, ms: seq<Member>) {
    Spans(ms) <= |bs| && forall k :: 0 <= k < |ms| ==> InPlace(bs, ms, k)
  }

  /** An archive: the members, two zero blocks, and then anything. */
  ghost predicate Archive(bs: seq<Block>, ms: seq<Member>) {
    Stored(bs, ms) && Spans(ms) + 2 <= |bs| && bs[Spans(ms)] == ZERO && bs[Spans(ms) + 1] == ZERO
  }

  lemma {:induction false} SpansMono(ms: seq<Member>, k: nat)
    requires k <= |ms|
    ensures Spans(ms[..k]) <= Spans(ms)
    ensures k < |ms| ==> Spans(ms[..k + 1]) == Spans(ms[..k]) + Span(ms[k]) <= Spans(ms)
    decreases |ms| - k
  {
    if k < |ms| {
      assert ms[..k + 1][..k] == ms[..k];
      SpansMono(ms, k + 1);
    } else {
      assert ms[..k] == ms;
    }
  }

  /** Only the front matters. */
  lemma StoredFront(bs: seq<Block>, bs': seq<Block>, ms: seq<Member>)
    requires Stored(bs, ms) && Spans(ms) <= |bs'| && bs'[..Spans(ms)] == bs[..Spans(ms)]
    ensures Stored(bs', ms)
  {
    hide MemberBlocks;
    forall k | 0 <= k < |ms| ensures InPlace(bs', ms, k) {
      assert InPlace(bs, ms, k);
      SpansMono(ms, k);
      SameSlice(bs, bs', Spans(ms), Spans(ms[..k]), Spans(ms[..k + 1]));
    }
  }

  lemma SameSlice(bs: seq<Block>, bs': seq<Block>, n: nat, i: nat, j: nat)
    requires i <= j <= n <= |bs| && n <= |bs'| && bs'[..n] == bs[..n]
    ensures bs'[i..j] == bs[i..j]
  {
    assert bs'[i..j] == bs'[..n][i..j] && bs[i..j] == bs[..n][i..j];
  }

  lemma StoredMore(bs: seq<Block>, ms: seq<Member>, more: seq<Block>, m: Member)
    requires Stored(bs, ms) && |bs| == Spans(ms) && MemberBlocks(more, m)
    ensures Stored(bs + more, ms + [m]) && |bs + more| == Spans(ms + [m])
  {
    hide MemberBlocks, InPlace, Span;
    SpansSnoc(ms, m);
    hide Spans;
    assert (bs + more)[..|bs|] == bs[..|bs|];
    StoredFront(bs, bs + more, ms);
    forall k | 0 <= k < |ms| + 1 ensures InPlace(bs + more, ms + [m], k) {
      if k < |ms| {
        assert InPlace(bs + more, ms, k);
        MoreMembers(bs + more, ms, m, k);
      } else {
        LastInPlace(bs, ms, more, m);
      }
    }
  }

  lemma SpansSnoc(ms: seq<Member>, m: Member)
    ensures Spans(ms + [m]) == Spans(ms) + Span(m)
    ensures forall bs :: MemberBlocks(bs, m) ==> |bs| == Span(m)
  {
    assert (ms + [m])[..|ms|] == ms;
  }

  lemma MoreMembers(bs: seq<Block>, ms: seq<Member>, m: Member, k: nat)
    requires k < |ms| && InPlace(bs, ms, k)
    ensures InPlace(bs, ms + [m], k)
  {
    hide MemberBlocks, Spans;
    assert (ms + [m])[..k] == ms[..k] && (ms + [m])[..k + 1] == ms[..k + 1];
  }

  lemma LastInPlace(bs: seq<Block>, ms: seq<Member>, more: seq<Block>, m: Member)
    requires |bs| == Spans(ms) && MemberBlocks(more, m)
    ensures InPlace(bs + more, ms + [m], |ms|)
  {
    hide *;
    SpansSnoc(ms, m);
    SpanIs(more, m);
    Ends(ms, [m]);
    Ends(bs, more);
    PlaceIs(bs + more, ms + [m], |ms|, |bs|, |bs| + |more|, more, m);
  }

  lemma Ends<T>(a: seq<T>, b: seq<T>)
    ensures (a + b)[..|a|] == a && (a + b)[..|a| + |b|] == a + b && (a + b)[|a|..|a| + |b|] == b
  {
  }

  lemma PlaceIs(bs: seq<Block>, ms: seq<Member>, k: nat, at: nat, next: nat, part: seq<Block>, m: Member)
    requires k < |ms| && ms[k] == m && Spans(ms[..k]) == at && Spans(ms[..k + 1]) == next
    requires at <= next <= |bs| && bs[at..next] == part && MemberBlocks(part, m)
    ensures InPlace(bs, ms, k)
  {
  }

  lemma SpanIs(bs: seq<Block>, m: Member)
    requires MemberBlocks(bs, m)
    ensures |bs| == Span(m)
  {
  }

  /** A header and its data make a member. */
  lemma MakesMember(h: Block, ds: seq<Block>, m: Member)
    requires Describes(FromBlock(h), m.entry) && DataIn(ds, m.data)
    ensures MemberBlocks([h] + ds, m)
  {
    assert ([h] + ds)[1..] == ds;
  }

  /** Members followed by an end are an archive, whatever comes after. */
  lemma MakesArchive(out: seq<Block>, ms: seq<Member>, bs: seq<Block>)
    requires Stored(out, ms) && |out| == Spans(ms) && |out| + 2 <= |bs| && bs[..|out|] == out
    requires bs[|out|] == ZERO && bs[|out| + 1] == ZERO
    ensures Archive(bs, ms)
  {
    assert out[..|out|] == out;
    StoredFront(out, bs, ms);
  }

  // ---- reading ----

  /** How a listing ends. */
  datatype End = AtMark(at: nat) | BadSum | Truncated

  function Next(b: Block, at: nat): nat { at + 1 + Blocks(ArSize(FromBlock(b))) }

  /** The positions of the headers from `at` on, when every block is looked at. */
  function Scan(bs: seq<Block>, at: nat): (seq<nat>, End)
    decreases |bs| - at
  {
    if at >= |bs| then ([], Truncated)
    else
      var h := FromBlock(bs[at]);
      if EndMark(h) then ([], AtMark(at))
      else if SumOf(h) != StoredSum(h) then ([], BadSum)
      else
        var (rest, end) := Scan(bs, Next(bs[at], at));
        ([at] + rest, end)
  }

  /** The data of the member whose header is at `at`. */
  function DataAt(bs: seq<Block>, at: nat): seq<byte>
    requires at < |bs| && Next(bs[at], at) <= |bs|
  {
    var n := ArSize(FromBlock(bs[at]));
    Room(n);
    Flat(bs[at + 1..Next(bs[at], at)])[..n]
  }

  lemma Room(n: nat)
    ensures n <= TBLOCK * Blocks(n) < n + TBLOCK
  {
  }

  lemma ZeroEndsArchive()
    ensures EndMark(FromBlock(ZERO))
  {
    var h := FromBlock(ZERO);
    assert h.prefix[0] == 0 && h.name[99] == 0 && h.name[0] == 0;
  }

  /** The k-th header found is that of the k-th member, with its data behind it. */
  ghost predicate Lists(bs: seq<Block>, at: seq<nat>, ms: seq<Member>) {
    |at| == |ms| && forall k :: 0 <= k < |ms| ==>
      at[k] < |bs| && Describes(FromBlock(bs[at[k]]), ms[k].entry)
      && Next(bs[at[k]], at[k]) <= |bs| && DataAt(bs, at[k]) == ms[k].data
  }

  /** The header and the data of a member in its place. */
  lemma MemberAt(bs: seq<Block>, at: nat, m: Member, posix: bool)
    requires at + Span(m) <= |bs| && MemberBlocks(bs[at..at + Span(m)], m) && Sound(m, posix)
    ensures Describes(FromBlock(bs[at]), m.entry) && Next(bs[at], at) == at + Span(m) && DataAt(bs, at) == m.data
  {
    var part := bs[at..at + Span(m)];
    assert part[0] == bs[at];
    DescribedIs(FromBlock(bs[at]), m.entry);
    assert ArSize(FromBlock(bs[at])) == |m.data|;
    assert part[1..] == bs[at + 1..at + Span(m)];
    Room(|m.data|);
  }

  function Positions(ms: seq<Member>): seq<nat> { seq(|ms|, k requires 0 <= k < |ms| => Spans(ms[..k])) }

  lemma MemberIn(bs: seq<Block>, ms: seq<Member>, posix: bool, k: nat)
    requires Archive(bs, ms) && k < |ms| && Sound(ms[k], posix)
    ensures var at := Spans(ms[..k]);
            && at < |bs| && Describes(FromBlock(bs[at]), ms[k].entry)
            && Next(bs[at], at) == Spans(ms[..k + 1]) <= |bs| && DataAt(bs, at) == ms[k].data
  {
    hide Describes, MemberBlocks, Sound, Next, DataAt, Spans, FromBlock;
    assert InPlace(bs, ms, k);
    SpansMono(ms, k);
    MemberAt(bs, Spans(ms[..k]), ms[k], posix);
  }

  lemma ScanStep(bs: seq<Block>, at: nat, e: Entry, rest: seq<nat>, end: End)
    requires at < |bs| && Describes(FromBlock(bs[at]), e) && Scan(bs, Next(bs[at], at)) == (rest, end)
    ensures Scan(bs, at) == ([at] + rest, end)
  {
    DescribedIs(FromBlock(bs[at]), e);
    hide Next, NameOf, IsDir, HdrSize, SumOf, StoredSum, FromBlock;
  }

  lemma ScanEnd(bs: seq<Block>, at: nat)
    requires at < |bs| && bs[at] == ZERO
    ensures Scan(bs, at) == ([], AtMark(at))
  {
    ZeroEndsArchive();
    hide Next, EndMark, SumOf, StoredSum, FromBlock;
  }

  /** Reading an archive from its k-th member on finds the rest of the members and then the end mark. */
  lemma {:induction false} ScanFrom(bs: seq<Block>, ms: seq<Member>, posix: bool, k: nat)
    requires Archive(bs, ms) && k <= |ms| && forall m :: m in ms ==> Sound(m, posix)
    ensures Spans(ms[..k]) <= |bs|
    ensures Scan(bs, Spans(ms[..k])) == (Positions(ms)[k..], AtMark(Spans(ms)))
    decreases |ms| - k
  {
    hide Scan, Next, DataAt, Describes, Stored, Sound, FromBlock, Spans, ZERO;
    SpansMono(ms, k);
    if k == |ms| {
      assert ms[..k] == ms && Positions(ms)[k..] == [];
      ScanEnd(bs, Spans(ms));
    } else {
      MemberIn(bs, ms, posix, k);
      ScanFrom(bs, ms, posix, k + 1);
      var at := Spans(ms[..k]);
      assert Positions(ms)[k] == at;
      assert Positions(ms)[k..] == [at] + Positions(ms)[k + 1..];
      ScanStep(bs, at, ms[k].entry, Positions(ms)[k + 1..], AtMark(Spans(ms)));
    }
  }

  /**
   * Main theorem on the format: reading an archive gives its members, names, sizes and bytes, in
   * order, and stops at the mark.
   */
  lemma ArchiveReads(bs: seq<Block>, ms: seq<Member>, posix: bool)
    requires Archive(bs, ms) && forall m :: m in ms ==> Sound(m, posix)
    ensures Scan(bs, 0) == (Positions(ms), AtMark(Spans(ms))) && Lists(bs, Positions(ms), ms)
  {
    hide *;
    ScanFrom(bs, ms, posix, 0);
    AllListed(bs, ms, posix);
    StartsAtZero(ms);
  }

  lemma StartsAtZero(ms: seq<Member>)
    ensures Spans(ms[..0]) == 0 && Positions(ms)[0..] == Positions(ms)
  {
  }

  lemma AllListed(bs: seq<Block>, ms: seq<Member>, posix: bool)
    requires Archive(bs, ms) && forall m :: m in ms ==> Sound(m, posix)
    ensures Lists(bs, Positions(ms), ms)
  {
    hide Scan, Next, DataAt, Describes, Archive, Sound, FromBlock, Spans;
    forall k | 0 <= k < |ms|
      ensures var at := Positions(ms)[k];
              && at < |bs| && Describes(FromBlock(bs[at]), ms[k].entry)
              && Next(bs[at], at) <= |bs| && DataAt(bs, at) == ms[k].data
    {
      MemberIn(bs, ms, posix, k);
    }
  }
}
