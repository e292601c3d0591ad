/** The header block of a tar member, made and read. */
module TarHeader {
  import opened Arith
  import opened Bytes

  const TBLOCK: nat := 512
  const NAMSIZ: nat := 100
  const MAXPFX: nat := 155
  const BINSIZE: byte := 0x80
  const BINNEGSZ: byte := 0xff
  const SLASH: byte := 47
  const SPACE: byte := 32
  const LF_PLAIN1: byte := 0
  const LF_LINK: byte := 49
  const LF_SYMLINK1: byte := 50
  const LF_SYMLINK2: byte := 115
  const LF_DIR: byte := 53
  const LF_FIFO: byte := 54
  const USTAR: seq<byte> := [117, 115, 116, 97, 114, 0]

  type Block = b: seq<byte> | |b| == TBLOCK witness Zeros(TBLOCK)

  const ZERO: Block := Zeros(TBLOCK)

  /** The fields of a header, in the order they have in the block. */
  datatype Hdr = Hdr(
    name: seq<byte>, mode: seq<byte>, uid: seq<byte>, gid: seq<byte>, size: seq<byte>, mtime: seq<byte>,
    chksum: seq<byte>, linkflag: byte, linkname: seq<byte>, magic: seq<byte>, version: seq<byte>,
    uname: seq<byte>, gname: seq<byte>, devmajor: seq<byte>, devminor: seq<byte>, prefix: seq<byte>, pad: seq<byte>)

  ghost predicate Sized(h: Hdr) {
    && |h.name| == 100 && |h.mode| == 8 && |h.uid| == 8 && |h.gid| == 8 && |h.size| == 12 && |h.mtime| == 12
    && |h.chksum| == 8 && |h.linkname| == 100 && |h.magic| == 6 && |h.version| == 2
    && |h.uname| == 32 && |h.gname| == 32
    && |h.devmajor| == 8 && |h.devminor| == 8 && |h.prefix| == 155 && |h.pad| == 12
  }

  /** What comes before and after the size, and after the checksum. */
  function Front(h: Hdr): seq<byte> { h.name + h.mode + h.uid + h.gid }

  function Tail(h: Hdr): seq<byte> {
    [h.linkflag] + h.linkname + h.magic + h.version + h.uname + h.gname + h.devmajor + h.devminor + h.prefix + h.pad
  }

  function ToBlock(h: Hdr): seq<byte> { Front(h) + h.size + h.mtime + h.chksum + Tail(h) }

  function FromBlock(b: Block): (h: Hdr)
    ensures Sized(h)
  {
    Hdr(b[0..100], b[100..108], b[108..116], b[116..124], b[124..136], b[136..148], b[148..156], b[156], b[157..257],
        b[257..263], b[263..265], b[265..297], b[297..329], b[329..337], b[337..345], b[345..500], b[500..512])
  }

  lemma BlockLength(h: Hdr)
    requires Sized(h)
    ensures |ToBlock(h)| == TBLOCK && |Front(h)| == 124 && |Tail(h)| == 356
  {
  }

  /** The block and the fields are the same thing. */
  lemma BlockFields(h: Hdr)
    requires Sized(h)
    ensures |ToBlock(h)| == TBLOCK && FromBlock(ToBlock(h)) == h
  {
    var b := ToBlock(h);
    BlockLength(h);
    FrontFields(h);
    TailFields(h);
    assert b[0..124] == Front(h) && b[124..136] == h.size && b[136..148] == h.mtime;
    assert b[148..156] == h.chksum && b[156..512] == Tail(h);
    hide Front, Tail, ToBlock;
    SameFront(b, h);
    SameTail(b, h);
  }

  lemma FrontFields(h: Hdr)
    requires Sized(h)
    ensures |Front(h)| == 124
    ensures Front(h)[0..100] == h.name && Front(h)[100..108] == h.mode && Front(h)[108..116] == h.uid
    ensures Front(h)[116..124] == h.gid
  {
  }

  lemma TailFields(h: Hdr)
    requires Sized(h)
    ensures |Tail(h)| == 356
    ensures Tail(h)[0] == h.linkflag && Tail(h)[1..101] == h.linkname && Tail(h)[101..107] == h.magic
    ensures Tail(h)[107..109] == h.version
    ensures Tail(h)[109..141] == h.uname && Tail(h)[141..173] == h.gname && Tail(h)[173..181] == h.devmajor
    ensures Tail(h)[181..189] == h.devminor && Tail(h)[189..344] == h.prefix && Tail(h)[344..356] == h.pad
  {
  }

  lemma SameFront(b: Block, h: Hdr)
    requires |Front(h)| == 124 && b[0..124] == Front(h)
    ensures b[0..100] == Front(h)[0..100] && b[100..108] == Front(h)[100..108]
    ensures b[108..116] == Front(h)[108..116] && b[116..124] == Front(h)[116..124]
  {
    hide Front;
  }

  lemma SameTail(b: Block, h: Hdr)
    requires |Tail(h)| == 356 && b[156..512] == Tail(h)
    ensures b[156] == Tail(h)[0] && b[157..257] == Tail(h)[1..101] && b[257..263] == Tail(h)[101..107]
    ensures b[263..265] == Tail(h)[107..109]
    ensures b[265..297] == Tail(h)[109..141] && b[297..329] == Tail(h)[141..173] && b[329..337] == Tail(h)[173..181]
    ensures b[337..345] == Tail(h)[181..189] && b[345..500] == Tail(h)[189..344] && b[500..512] == Tail(h)[344..356]
  {
    hide Tail;
  }

  // ---- numbers in text ----

  function Octal(n: nat): (s: seq<byte>)
    ensures s != []
  {
    (if n < 8 then [] else Octal(n / 8)) + [48 + n % 8]
  }

  /** The number right-justified, as `%6o` prints it. */
  function Right(n: nat, width: nat): seq<byte> {
    (if |Octal(n)| < width then Copies(width - |Octal(n)|, SPACE) else []) + Octal(n)
  }

  predicate IsOctal(c: byte) { 48 <= c < 56 }

  function OctalValue(s: seq<byte>, acc: nat): nat {
    if s != [] && IsOctal(s[0]) then OctalValue(s[1..], acc * 8 + s[0] - 48) else acc
  }

  /** `strtoul(s, nil, 8)`: blanks, then digits up to the first other byte. */
  function OctalOf(s: seq<byte>): nat {
    if s != [] && s[0] == SPACE then OctalOf(s[1..]) else OctalValue(s, 0)
  }

  lemma {:induction false} OctalReads(n: nat, t: seq<byte>)
    ensures OctalValue(Octal(n) + t, 0) == OctalValue(t, n)
  {
    var d: byte := 48 + n % 8;
    DivModProps(n, 8);
    if n < 8 {
      assert Octal(n) + t == [d] + t;
      assert ([d] + t)[1..] == t;
    } else {
      assert Octal(n) + t == Octal(n / 8) + ([d] + t);
      OctalReads(n / 8, [d] + t);
      assert ([d] + t)[1..] == t;
      assert OctalValue([d] + t, n / 8) == OctalValue(t, (n / 8) * 8 + n % 8);
    }
  }

  lemma OctalStarts(n: nat)
    ensures IsOctal(Octal(n)[0])
  {
    if n >= 8 {
      OctalStarts(n / 8);
    }
  }

  lemma {:induction false} SkipsBlanks(k: nat, t: seq<byte>)
    requires t != [] && t[0] != SPACE
    ensures OctalOf(Copies(k, SPACE) + t) == OctalValue(t, 0)
  {
    if k == 0 {
      assert Copies(0, SPACE) + t == t;
    } else {
      SkipsBlanks(k - 1, t);
      assert (Copies(k, SPACE) + t)[1..] == Copies(k - 1, SPACE) + t;
    }
  }

  /** A number printed before anything that is not a digit is read back. */
  lemma RightReads(n: nat, width: nat, t: seq<byte>)
    requires t != [] && !IsOctal(t[0])
    ensures OctalOf(Right(n, width) + t) == n
  {
    OctalReads(n, t);
    OctalStarts(n);
    hide Octal, OctalOf;
    var k := if |Octal(n)| < width then width - |Octal(n)| else 0;
    assert Right(n, width) == Copies(k, SPACE) + Octal(n);
    hide Right;
    Together(Copies(k, SPACE), Octal(n), t);
    assert (Octal(n) + t)[0] == Octal(n)[0];
    SkipsBlanks(k, Octal(n) + t);
  }

  lemma Together(a: seq<byte>, b: seq<byte>, c: seq<byte>)
    ensures a + b + c == a + (b + c)
  {
  }

  lemma {:induction false} OctalLength(n: nat, width: nat)
    requires n < Pow(8, width) && width > 0
    ensures |Octal(n)| <= width && |Right(n, width)| == width
  {
    if n >= 8 {
      assert width > 1;
      OctalLength(n / 8, width - 1);
    }
  }

  // ---- big-endian binary ----

  /** `putbe`: the low bytes of the number, the highest first. */
  function BigEndian(n: nat, size: nat): (s: seq<byte>)
    ensures |s| == size
  {
    if size == 0 then [] else BigEndian(n / 256, size - 1) + [n % 256]
  }

  function BigValue(s: seq<byte>): nat {
    if s == [] then 0 else 256 * BigValue(s[..|s| - 1]) + s[|s| - 1]
  }

  lemma {:induction false} BigReads(n: nat, size: nat)
    requires n < Pow(256, size)
    ensures BigValue(BigEndian(n, size)) == n
  {
    if size > 0 {
      BigReads(n / 256, size - 1);
      var b := BigEndian(n, size);
      assert b[..size - 1] == BigEndian(n / 256, size - 1);
    }
  }

  /** The low bytes do not depend on how many are kept. */
  lemma {:induction false} BigSuffix(n: nat, size: nat, k: nat)
    requires k <= size
    ensures BigEndian(n, size)[size - k..] == BigEndian(n, k)
  {
    if k > 0 {
      BigSuffix(n / 256, size - 1, k - 1);
      assert BigEndian(n, size)[size - k..] == BigEndian(n / 256, size - 1)[size - k..] + [n % 256];
    }
  }

  // ---- sums ----

  function Sum(s: seq<byte>): nat {
    if s == [] then 0 else Sum(s[..|s| - 1]) + s[|s| - 1]
  }

  lemma {:induction false} SumBound(s: seq<byte>)
    ensures Sum(s) <= 255 * |s|
  {
    if s != [] {
      SumBound(s[..|s| - 1]);
    }
  }

  // ---- reading ----

  /** `tar_sstrnlen`: a field need not end in a zero. */
  function FieldLen(s: seq<byte>): (n: nat)
    requires s != []
    ensures n <= |s|
  {
    if s[|s| - 1] != 0 then |s| else StrLen(s)
  }

  function StrLen(s: seq<byte>): (n: nat)
    ensures n <= |s|
  {
    if s == [] || s[0] == 0 then 0 else 1 + StrLen(s[1..])
  }

  function FieldText(s: seq<byte>): seq<byte>
    requires s != []
  { s[..FieldLen(s)] }

  predicate IsUstar(h: Hdr) { h.magic == USTAR }

  /** `name`: the full name, of one piece or two. */
  function NameOf(h: Hdr): seq<byte>
    requires h.name != [] && h.prefix != []
  {
    if h.prefix[0] == 0 || !IsUstar(h) then FieldText(h.name) else FieldText(h.prefix) + [SLASH] + FieldText(h.name)
  }

  /** `eotar`: a header without a name ends the archive. */
  predicate EndMark(h: Hdr)
    requires h.name != [] && h.prefix != []
  { NameOf(h) == [] || NameOf(h)[0] == 0 }

  predicate IsDir(h: Hdr)
    requires h.name != [] && h.prefix != []
  {
    || h.linkflag == LF_DIR
    || (NameOf(h) != [] && NameOf(h)[|NameOf(h)| - 1] == SLASH)
    || (OctalOf(h.mode + h.uid + h.gid + h.size + h.mtime + h.chksum + Tail(h)) / 0x1000) % 16 == 4
  }

  predicate IsLink(h: Hdr) { h.linkflag == LF_LINK || h.linkflag == LF_SYMLINK1 || h.linkflag == LF_SYMLINK2 }

  predicate IsFifo(h: Hdr) { h.linkflag == LF_FIFO }

  /** `hdrsize`. */
  function HdrSize(h: Hdr): nat
    requires |h.size| == 12
  {
    if h.size[0] == BINNEGSZ then 0
    else if h.size[0] == BINSIZE then BigValue(h.size[3..11])
    else OctalOf(h.size + h.mtime + h.chksum + Tail(h))
  }

  /** `arsize`: directories and links have no data in the archive. */
  function ArSize(h: Hdr): nat
    requires |h.size| == 12 && h.name != [] && h.prefix != []
  { if IsDir(h) || IsLink(h) then 0 else HdrSize(h) }

  function Blocks(bytes: nat): nat { (bytes + TBLOCK - 1) / TBLOCK }

  /** The sum of the header with blanks for the checksum. */
  function SumOf(h: Hdr): nat { Sum(ToBlock(h.(chksum := Copies(8, SPACE)))) }

  function StoredSum(h: Hdr): nat { OctalOf(h.chksum + Tail(h)) }

  // ---- making a header ----

  /** What a header is made from. */
  datatype Entry = Entry(name: seq<byte>, dir: bool, perm: nat, uid: nat, gid: nat, length: nat, mtime: nat,
    owner: seq<byte>, group: seq<byte>)

  /** The name as it is stored: a directory's ends in a slash. */
  ghost function FullName(e: Entry): seq<byte> { e.name + if e.dir then [47] else [] }

  /** A relative name of a file that is there to be read, with numbers that fit their fields. */
  ghost predicate Ordinary(e: Entry) {
    && e.name != [] && 0 !in e.name && e.name[0] != SLASH && (!e.dir ==> e.name[|e.name| - 1] != SLASH)
    && e.perm < 0x200 && e.uid < 0x4_0000 && e.gid < 0x4_0000
    && e.length < 0x8000_0000_0000_0000 && e.mtime < 0x1_0000_0000
  }

  /** `strncpy`. */
  function Strncpy(s: seq<byte>, n: nat): (r: seq<byte>)
    ensures |r| == n
  { if |s| >= n then s[..n] else s + Zeros(n - |s|) }

  /** A slash where the name can be divided between the two fields. */
  ghost predicate SplitsAt(name: seq<byte>, i: int) {
    0 <= i < |name| && name[i] == 47 && i <= 155 && |name| - 1 - i <= 100
  }

  ghost predicate Fits(name: seq<byte>, posix: bool) {
    |name| <= 100 || (posix && exists i :: 0 <= i < |name| && SplitsAt(name, i))
  }

  /** The last slash that divides the name, -1 for none. */
  method FindSplit(name: seq<byte>) returns (i: int)
    ensures i == -1 || SplitsAt(name, i)
    ensures forall j :: i < j < |name| ==> !SplitsAt(name, j)
  {
    i := |name| - 1;
    while i >= 0
      invariant -1 <= i < |name|
      invariant forall j :: i < j < |name| ==> !SplitsAt(name, j)
    {
      if name[i] == SLASH && i <= MAXPFX && |name| - 1 - i <= NAMSIZ {
        return;
      }
      i := i - 1;
    }
  }

  /** How a name lies in the fields. */
  ghost predicate Named(h: Hdr, name: seq<byte>) {
    || (h.name == Strncpy(name, NAMSIZ) && |name| <= NAMSIZ && |h.prefix| == MAXPFX && h.prefix[0] == 0)
    || (|name| > NAMSIZ && exists i ::
          SplitsAt(name, i)
          && h.prefix == Strncpy(name[..i], MAXPFX) && h.name == Strncpy(name[i + 1..], NAMSIZ))
  }

  /** `putfullname`: succeeds exactly when the name fits in one field or divides at some slash. */
  method PutFullName(h: Hdr, file: seq<byte>, posix: bool) returns (h': Hdr, ok: bool)
    requires Sized(h) && h.prefix[0] == 0
    ensures Sized(h') && h' == h.(name := h'.name, prefix := h'.prefix)
    ensures var name := file + if IsDir(h) then [SLASH] else [];
            (ok <==> Fits(name, posix)) && (if ok then Named(h', name) && (posix || |name| <= NAMSIZ) else h' == h)
  {
    var name := file + if IsDir(h) then [SLASH] else [];
    if |name| <= NAMSIZ {
      return h.(name := Strncpy(name, NAMSIZ), prefix := [0] + h.prefix[1..]), true;
    }
    if !posix {
      return h, false;
    }
    var i := FindSplit(name);
    if i == -1 {
      return h, false;
    }
    h' := h.(prefix := Strncpy(name[..i], MAXPFX), name := Strncpy(name[i + 1..], NAMSIZ));
    ok := true;
  }

  lemma {:induction false} FieldBack(s: seq<byte>, n: nat)
    requires |s| <= n && 0 < n && 0 !in s
    ensures FieldText(Strncpy(s, n)) == s
  {
    var f := Strncpy(s, n);
    if |s| == n {
      assert f == s;
    } else {
      assert f[n - 1] == 0;
      ZeroEnds(s, Zeros(n - |s|));
      assert f[..|s|] == s;
    }
  }

  lemma {:induction false} ZeroEnds(s: seq<byte>, z: seq<byte>)
    requires 0 !in s && z != [] && z[0] == 0
    ensures StrLen(s + z) == |s|
  {
    if s == [] {
      assert s + z == z;
    } else {
      assert (s + z)[1..] == s[1..] + z;
      ZeroEnds(s[1..], z);
    }
  }

  /** `name` gives back what `putfullname` stored. */
  lemma NameBack(h: Hdr, name: seq<byte>)
    requires Named(h, name) && name != [] && 0 !in name && name[0] != SLASH && (|name| <= NAMSIZ || IsUstar(h))
    ensures h.name != [] && h.prefix != [] && NameOf(h) == name
  {
    if h.name == Strncpy(name, NAMSIZ) && |name| <= NAMSIZ && |h.prefix| == MAXPFX && h.prefix[0] == 0 {
      FieldBack(name, NAMSIZ);
    } else {
      var i :| SplitsAt(name, i) && h.prefix == Strncpy(name[..i], MAXPFX) && h.name == Strncpy(name[i + 1..], NAMSIZ);
      SplitName(h, name, i);
    }
  }

  lemma SplitName(h: Hdr, name: seq<byte>, i: nat)
    requires SplitsAt(name, i) && i > 0 && 0 !in name && IsUstar(h)
    requires h.prefix == Strncpy(name[..i], MAXPFX) && h.name == Strncpy(name[i + 1..], NAMSIZ)
    ensures h.name != [] && h.prefix != [] && NameOf(h) == name
  {
    var p, q := name[..i], name[i + 1..];
    assert 0 !in p && 0 !in q && p[0] == name[0];
    FirstOf(p, MAXPFX);
    FieldBack(p, MAXPFX);
    FieldBack(q, NAMSIZ);
    hide Strncpy, FieldText;
    assert name == p + [SLASH] + q;
  }

  lemma FirstOf(s: seq<byte>, n: nat)
    requires s != [] && |s| <= n
    ensures Strncpy(s, n)[0] == s[0]
  {
  }

  /** `sprint` of the size; the zero it ends with falls on the next field. */
  method PutSize(h: Hdr, length: nat) returns (h': Hdr)
    requires Sized(h) && length < 0x8000_0000_0000_0000
    ensures Sized(h') && h' == h.(size := h'.size, mtime := h'.mtime)
    ensures h'.size[0] != BINNEGSZ && (h'.size[0] == BINSIZE <==> length >= 0x1_0000_0000)
    ensures if length >= 0x1_0000_0000 then BigValue(h'.size[3..11]) == length
            else h'.size == Right(length, 11) + [SPACE]
  {
    if length >= 0x1_0000_0000 {
      h' := h.(size := [BINSIZE] + BigEndian(length, 10) + [SPACE]);
      BigSuffix(length, 10, 8);
      Pow63();
      BigReads(length, 8);
      assert h'.size[3..11] == BigEndian(length, 10)[2..];
    } else {
      Pow33();
      OctalLength(length, 11);
      RightStarts(length, 11);
      h' := h.(size := Right(length, 11) + [SPACE], mtime := [0] + h.mtime[1..]);
    }
  }

  lemma RightStarts(n: nat, width: nat)
    ensures Right(n, width) != [] && (Right(n, width)[0] == SPACE || IsOctal(Right(n, width)[0]))
  {
    OctalStarts(n);
  }

  lemma Pow63()
    ensures Pow(256, 8) > 0x8000_0000_0000_0000
  {
    assert Pow(256, 2) == 0x1_0000;
    hide Pow;
    PowAdd(256, 2, 2);
    PowAdd(256, 4, 4);
  }

  lemma Pow33()
    ensures Pow(8, 11) == 0x2_0000_0000 && Pow(8, 6) == 0x4_0000 && Pow(8, 3) == 0x200
  {
    assert Pow(8, 3) == 0x200 && Pow(8, 2) == 0x40;
    hide Pow;
    PowAdd(8, 3, 3);
    PowAdd(8, 6, 3);
    PowAdd(8, 9, 2);
  }

  /** The numbers of a header; each is read from its field on, up to the first byte that is not a digit. */
  ghost function Mode(h: Hdr): nat { OctalOf(h.mode + h.uid + h.gid + h.size + h.mtime + h.chksum + Tail(h)) }

  ghost function Owner(h: Hdr): nat { OctalOf(h.uid + h.gid + h.size + h.mtime + h.chksum + Tail(h)) }

  ghost function Group(h: Hdr): nat { OctalOf(h.gid + h.size + h.mtime + h.chksum + Tail(h)) }

  ghost function Time(h: Hdr): nat { OctalOf(h.mtime + h.chksum + Tail(h)) }

  /** Permissions, owner, group and time are the entry's. */
  ghost predicate Attributes(h: Hdr, e: Entry) {
    Mode(h) % 0x200 == e.perm && Owner(h) == e.uid && Group(h) == e.gid && Time(h) == e.mtime
  }

  /** The length a header gives, in binary behind a byte 0x80 or in octal. */
  ghost predicate Lengths(h: Hdr, length: nat)
    requires |h.size| == 12
  {
    if h.size[0] == 0x80 then BigValue(h.size[3..11]) == length
    else h.size[0] != 0xff && OctalOf(h.size + h.mtime + h.chksum + Tail(h)) == length
  }

  /**
   * A header for the entry, by this program or another: a directory's name ends in a slash, and
   * anything else has any flag but those of links, directories and fifos, such as 0 and '0', and
   * any type in its mode but a directory's, such as a regular file's.
   */
  ghost predicate Describes(h: Hdr, e: Entry) {
    && Sized(h) && NameOf(h) == FullName(e) && FullName(e) != [] && FullName(e)[0] != 0
    && (if e.dir then h.linkflag !in {49, 50, 115, 54}
        else h.linkflag !in {49, 50, 115, 54, 53} && e.name[|e.name| - 1] != 47 && (Mode(h) / 0x1000) % 16 != 4)
    && Lengths(h, e.length) && Attributes(h, e) && SumOf(h) == StoredSum(h)
  }

  /** What is read in such a header. */
  lemma DescribedIs(h: Hdr, e: Entry)
    requires Describes(h, e)
    ensures Sized(h) && NameOf(h) == FullName(e) && !EndMark(h) && IsDir(h) == e.dir && !IsLink(h) && !IsFifo(h)
    ensures HdrSize(h) == e.length && ArSize(h) == (if e.dir then 0 else e.length) && SumOf(h) == StoredSum(h)
    ensures Attributes(h, e)
  {
    hide NameOf, OctalOf, BigValue, SumOf, StoredSum, Tail, Owner, Group, Time;
  }

  // ---- what the bytes of a header mean ----

  /**
   * Flag '1', '2' or 's' is a link, '6' a fifo, and '5', a final slash or an octal mode of 40000
   * to 47777 a directory.
   */
  lemma KindIs(b: Block)
    ensures var h := FromBlock(b);
            && (IsLink(h) <==> b[156] == 49 || b[156] == 50 || b[156] == 115) && (IsFifo(h) <==> b[156] == 54)
            && (IsDir(h) <==>
                  || b[156] == 53 || (NameOf(h) != [] && NameOf(h)[|NameOf(h)| - 1] == 47)
                  || 0x4000 <= OctalOf(b[100..]) % 0x1_0000 < 0x5000)
  {
    var h := FromBlock(b);
    FieldsJoin(b);
    hide FromBlock, NameOf, OctalOf, Tail;
    var m := OctalOf(b[100..]);
    TypeBits(m);
  }

  lemma TypeBits(m: nat)
    ensures (m / 0x1000) % 16 == 4 <==> 0x4000 <= m % 0x1_0000 < 0x5000
  {
    var q, r := m / 0x1000, m % 0x1000;
    assert m == (q / 16) * 0x1_0000 + ((q % 16) * 0x1000 + r);
    DivModUnique(m, 0x1_0000, q / 16, (q % 16) * 0x1000 + r);
  }

  /** Where the fields of a block are. */
  lemma FieldsJoin(b: Block)
    ensures var h := FromBlock(b);
            && h.name == b[0..100] && h.mode == b[100..108] && h.uid == b[108..116] && h.gid == b[116..124]
            && h.size == b[124..136] && h.mtime == b[136..148] && h.chksum == b[148..156] && h.linkflag == b[156]
            && h.linkname == b[157..257] && h.magic == b[257..263] && h.version == b[263..265]
            && h.uname == b[265..297] && h.gname == b[297..329] && h.devmajor == b[329..337]
            && h.devminor == b[337..345] && h.prefix == b[345..500] && h.pad == b[500..512]
            && h.mode + h.uid + h.gid + h.size + h.mtime + h.chksum + Tail(h) == b[100..]
            && h.size + h.mtime + h.chksum + Tail(h) == b[124..]
            && h.chksum + Tail(h) == b[148..]
  {
    var h := FromBlock(b);
    assert Tail(h) == b[156..];
    hide Tail;
    assert h.chksum + Tail(h) == b[148..];
    assert h.size + h.mtime + (h.chksum + Tail(h)) == b[124..];
  }

  /** Directories and links have no data; of the rest the length is binary or octal, and a negative one is none. */
  lemma DataLength(b: Block)
    ensures var h := FromBlock(b);
            ArSize(h) ==
              if IsDir(h) || IsLink(h) || b[124] == 255 then 0
              else if b[124] == 128 then BigValue(b[127..135])
              else OctalOf(b[124..])
  {
    var h := FromBlock(b);
    FieldsJoin(b);
    hide NameOf, OctalOf, Tail, BigValue, IsDir, IsLink;
    assert h.size[0] == b[124] && h.size[3..11] == b[127..135];
  }

  /** The name is that of the first field, behind the prefix and a slash when a ustar header has one. */
  lemma NameIs(b: Block)
    ensures NameOf(FromBlock(b)) ==
      if b[345] != 0 && b[257..263] == [117, 115, 116, 97, 114, 0]
      then FieldText(b[345..500]) + [47] + FieldText(b[0..100])
      else FieldText(b[0..100])
  {
    hide FieldText, Tail;
  }

  /** The checksum is the sum of all bytes, with blanks in its own place. */
  lemma SumIs(b: Block)
    ensures SumOf(FromBlock(b)) == Sum(b[..148] + [32, 32, 32, 32, 32, 32, 32, 32] + b[156..])
    ensures StoredSum(FromBlock(b)) == OctalOf(b[148..])
  {
    FieldsJoin(b);
    BlankedIs(b, b[..148] + [32, 32, 32, 32, 32, 32, 32, 32] + b[156..]);
    hide FromBlock, OctalOf, Sum, Tail, ToBlock;
  }

  /** Blanks before an octal number are skipped, and it ends at the first other byte. */
  lemma OctalSamples()
    ensures OctalOf([32, 32, 54, 52, 52, 32, 55]) == 420 && Octal(420) == [54, 52, 52]
    ensures forall c: byte :: IsOctal(c) <==> 48 <= c <= 55
  {
    assert OctalOf([32, 32, 54, 52, 52, 32, 55]) == OctalOf([32, 54, 52, 52, 32, 55]) == OctalOf([54, 52, 52, 32, 55]);
    assert OctalValue([54, 52, 52, 32, 55], 0) == OctalValue([52, 52, 32, 55], 6) == OctalValue([52, 32, 55], 52);
    assert OctalValue([52, 32, 55], 52) == OctalValue([32, 55], 420) == 420;
    assert Octal(6) == [54] && Octal(52) == [54, 52];
  }

  lemma BigSample()
    ensures BigValue([0, 0, 0, 1, 0, 0, 2, 0]) == 0x1_0000_0200
  {
    assert BigValue([]) == 0;
    BigOne([], [0], 0, 0);
    BigOne([0], [0, 0], 0, 0);
    BigOne([0, 0], [0, 0, 0], 0, 0);
    BigOne([0, 0, 0], [0, 0, 0, 1], 0, 1);
    BigOne([0, 0, 0, 1], [0, 0, 0, 1, 0], 1, 0);
    BigOne([0, 0, 0, 1, 0], [0, 0, 0, 1, 0, 0], 256, 0);
    BigOne([0, 0, 0, 1, 0, 0], [0, 0, 0, 1, 0, 0, 2], 0x1_0000, 2);
    BigOne([0, 0, 0, 1, 0, 0, 2], [0, 0, 0, 1, 0, 0, 2, 0], 0x100_0002, 0);
  }

  lemma BigOne(s: seq<byte>, t: seq<byte>, n: nat, b: byte)
    requires BigValue(s) == n && t == s + [b]
    ensures BigValue(t) == 256 * n + b
  {
    assert t[..|s|] == s;
  }

  /** `mkhdr`: the fields in order. A name that does not fit leaves a header that ends the archive. */
  method MakeHeader(e: Entry, posix: bool) returns (h: Hdr, ok: bool)
    requires Ordinary(e)
    ensures Sized(h) && (ok <==> Fits(FullName(e), posix))
    ensures if ok then Describes(h, e) else EndMark(h)
    ensures Stamped(h, e) && h.linkflag == if e.dir then 53 else 0
    ensures if posix then
              && h.magic == [117, 115, 116, 97, 114, 0] && h.version == [48, 48]
              && h.uname == Strncpy(e.owner, 32) && h.gname == Strncpy(e.group, 32)
            else h.magic == [0, 0, 0, 0, 0, 0] && h.version == [0, 0] && h.uname == Zeros(32) && h.gname == Zeros(32)
    ensures h.linkname == Zeros(100) && h.devmajor == Zeros(8) && h.devminor == Zeros(8) && h.pad == Zeros(12)
  {
    h := PutNumbers(e);
    NotYetNamed(h, e);
    hide Right, IsDir, NameOf, Ordinary, Fits, Named, SumOf, StoredSum, Describes, Strncpy;
    h, ok := PutFullName(h, e.name, posix);
    if posix {
      h := h.(magic := USTAR, version := [48, 48], uname := Strncpy(e.owner, 32), gname := Strncpy(e.group, 32));
    }
    h := PutSum(h);
    if ok {
      Described(h, e);
    }
  }

  /** Permissions, owner, group and time, in octal, each before a blank. */
  ghost predicate Stamped(h: Hdr, e: Entry) {
    && h.mode == Right(e.perm, 6) + [32, 0]
    && h.uid == Right(e.uid, 6) + [32, 0] && h.gid == Right(e.gid, 6) + [32, 0] && h.mtime == Right(e.mtime, 11) + [32]
  }

  /** The fields of `mkhdr` before the name. */
  method PutNumbers(e: Entry) returns (h: Hdr)
    requires Ordinary(e)
    ensures Sized(h) && h.name == Zeros(100) && h.prefix == Zeros(155)
    ensures Stamped(h, e) && h.linkflag == (if e.dir then LF_DIR else LF_PLAIN1)
    ensures h.magic == Zeros(6) && h.version == Zeros(2) && h.uname == Zeros(32) && h.gname == Zeros(32)
    ensures h.linkname == Zeros(100) && h.devmajor == Zeros(8) && h.devminor == Zeros(8) && h.pad == Zeros(12)
    ensures h.size[0] != BINNEGSZ && (h.size[0] == BINSIZE <==> e.length >= 0x1_0000_0000)
    ensures if e.length >= 0x1_0000_0000 then BigValue(h.size[3..11]) == e.length
            else h.size == Right(e.length, 11) + [SPACE]
  {
    h := FromBlock(ZERO);
    Pow33();
    OctalLength(e.perm, 6);
    OctalLength(e.uid, 6);
    OctalLength(e.gid, 6);
    OctalLength(e.mtime, 11);
    hide Right, Octal, OctalOf, BigValue, Pow;
    h := h.(mode := Right(e.perm, 6) + [SPACE, 0],
      uid := Right(e.uid, 6) + [SPACE, 0], gid := Right(e.gid, 6) + [SPACE, 0]);
    h := PutSize(h, e.length);
    h := h.(mtime := Right(e.mtime, 11) + [SPACE], chksum := [0] + h.chksum[1..]);
    h := h.(linkflag := if e.dir then LF_DIR else LF_PLAIN1);
  }

  lemma NotYetNamed(h: Hdr, e: Entry)
    requires Sized(h) && h.name == Zeros(100) && h.prefix == Zeros(155) && e.perm < 0x200
    requires h.mode == Right(e.perm, 6) + [SPACE, 0] && h.linkflag == (if e.dir then LF_DIR else LF_PLAIN1)
    ensures IsDir(h) == e.dir
  {
    ModeReads(h, e.perm);
    assert NameOf(h) == [] by {
      assert h.name[99] == 0 && h.name[0] == 0;
    }
  }

  lemma ModeReads(h: Hdr, perm: nat)
    requires h.mode == Right(perm, 6) + [SPACE, 0] && perm < 0x200
    ensures (Mode(h) / 0x1000) % 16 == 0 && Mode(h) == perm
  {
    var rest := h.uid + h.gid + h.size + h.mtime + h.chksum + Tail(h);
    hide Tail, Right, OctalOf;
    assert h.mode + h.uid + h.gid + h.size + h.mtime + h.chksum + Tail(h) == Right(perm, 6) + ([SPACE, 0] + rest);
    RightReads(perm, 6, [SPACE, 0] + rest);
  }

  /** The checksum goes in last, and does not change the sum. */
  method PutSum(h: Hdr) returns (h': Hdr)
    requires Sized(h)
    ensures Sized(h') && h' == h.(chksum := h'.chksum) && SumOf(h') == StoredSum(h')
  {
    var sum := SumOf(h);
    SumFits(h);
    h' := h.(chksum := Right(sum, 6) + [0] + h.chksum[7..]);
    var rest := h.chksum[7..] + Tail(h);
    assert h'.chksum + Tail(h') == Right(sum, 6) + ([0] + rest);
    RightReads(sum, 6, [0] + rest);
    assert h'.(chksum := Copies(8, SPACE)) == h.(chksum := Copies(8, SPACE));
  }

  /** Six octal digits always suffice. */
  lemma SumFits(h: Hdr)
    requires Sized(h)
    ensures SumOf(h) <= 130560 && |Right(SumOf(h), 6)| == 6
  {
    var b := h.(chksum := Copies(8, SPACE));
    BlockLength(b);
    SumBound(ToBlock(b));
    Pow33();
    hide Sum, ToBlock, Pow, Octal;
    OctalLength(SumOf(h), 6);
  }

  lemma AttributesRead(h: Hdr, e: Entry)
    requires Stamped(h, e) && e.perm < 0x200
    ensures Attributes(h, e)
  {
    ModeReads(h, e.perm);
    var t := h.chksum + Tail(h);
    hide Tail, Right, OctalOf;
    FieldReads(h.uid, e.uid, 6, [32, 0], h.gid + h.size + h.mtime + t);
    FieldReads(h.gid, e.gid, 6, [32, 0], h.size + h.mtime + t);
    FieldReads(h.mtime, e.mtime, 11, [32], t);
    Regroup(h.uid, h.gid, h.size, h.mtime, h.chksum, Tail(h));
  }

  lemma FieldReads(field: seq<byte>, n: nat, width: nat, end: seq<byte>, rest: seq<byte>)
    requires field == Right(n, width) + end && end != [] && !IsOctal(end[0])
    ensures OctalOf(field + rest) == n
  {
    hide Right, OctalOf;
    assert field + rest == Right(n, width) + (end + rest);
    RightReads(n, width, end + rest);
  }

  lemma Regroup(a: seq<byte>, b: seq<byte>, c: seq<byte>, d: seq<byte>, e: seq<byte>, f: seq<byte>)
    ensures a + b + c + d + e + f == a + (b + c + d + (e + f)) && b + c + d + e + f == b + (c + d + (e + f))
    ensures d + e + f == d + (e + f)
  {
  }

  lemma Described(h: Hdr, e: Entry)
    requires Sized(h) && Ordinary(e) && Named(h, FullName(e)) && (|FullName(e)| <= NAMSIZ || IsUstar(h))
    requires Stamped(h, e)
    requires h.mode == Right(e.perm, 6) + [SPACE, 0] && h.linkflag == (if e.dir then LF_DIR else LF_PLAIN1)
    requires h.size[0] != BINNEGSZ && (h.size[0] == BINSIZE <==> e.length >= 0x1_0000_0000)
    requires if e.length >= 0x1_0000_0000 then BigValue(h.size[3..11]) == e.length
             else h.size == Right(e.length, 11) + [SPACE]
    requires SumOf(h) == StoredSum(h)
    ensures Describes(h, e)
  {
    hide NameOf, HdrSize, IsDir, Named, Right, BigValue, SumOf, StoredSum, OctalOf, Tail;
    assert FullName(e)[0] == e.name[0];
    NameBack(h, FullName(e));
    LengthReads(h, e.length);
    ModeReads(h, e.perm);
    AttributesRead(h, e);
  }

  lemma SizeReads(h: Hdr, length: nat)
    requires Sized(h) && h.size[0] != BINNEGSZ && (h.size[0] == BINSIZE <==> length >= 0x1_0000_0000)
    requires if length >= 0x1_0000_0000 then BigValue(h.size[3..11]) == length
             else h.size == Right(length, 11) + [SPACE]
    ensures HdrSize(h) == length
  {
    LengthReads(h, length);
    hide Tail, Right, OctalOf, BigValue;
  }

  lemma LengthReads(h: Hdr, length: nat)
    requires Sized(h) && h.size[0] != BINNEGSZ && (h.size[0] == BINSIZE <==> length >= 0x1_0000_0000)
    requires if length >= 0x1_0000_0000 then BigValue(h.size[3..11]) == length
             else h.size == Right(length, 11) + [SPACE]
    ensures Lengths(h, length)
  {
    if length < 0x1_0000_0000 {
      var rest := h.mtime + h.chksum + Tail(h);
      hide Tail, Right, OctalOf;
      assert h.size + h.mtime + h.chksum + Tail(h) == Right(length, 11) + ([SPACE] + rest);
      RightReads(length, 11, [SPACE] + rest);
    }
  }

  /** `chksum` works on the block itself: blanks go in for the checksum, and the old one comes back. */
  method ChecksumInPlace(hp: array<byte>) returns (i: nat)
    requires hp.Length == TBLOCK
    modifies hp
    ensures hp[..] == old(hp[..])
    ensures i == SumOf(FromBlock(hp[..]))
  {
    ghost var b := hp[..];
    var oldsum := hp[148..156];
    forall j | 148 <= j < 156 {
      hp[j] := SPACE;
    }
    ghost var blanked := hp[..];
    i := 0;
    var n := 0;
    while n < TBLOCK
      invariant 0 <= n <= TBLOCK && hp[..] == blanked
      invariant i == Sum(blanked[..n])
    {
      assert blanked[..n + 1][..n] == blanked[..n];
      i := i + hp[n];
      n := n + 1;
    }
    assert blanked[..n] == blanked;
    forall j | 148 <= j < 156 {
      hp[j] := oldsum[j - 148];
    }
    assert hp[..] == b;
    BlankedIs(b, blanked);
  }

  lemma BlankedIs(b: Block, blanked: seq<byte>)
    requires blanked == b[..148] + Copies(8, SPACE) + b[156..]
    ensures SumOf(FromBlock(b)) == Sum(blanked)
  {
    var h := FromBlock(b).(chksum := Copies(8, SPACE));
    assert Front(h) == b[0..124];
    assert Tail(h) == b[156..512];
    assert ToBlock(h) == blanked;
  }
}
