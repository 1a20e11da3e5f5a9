/** The journal of local operations, as the bytes of a file. */
module JournalFile {

  type byte = x: int | 0 <= x < 256 witness 0

  const MKNOD: nat := 0x1
  const MKDIR: nat := 0x2
  const UNLINK: nat := 0x3
  const RMDIR: nat := 0x4
  const SYMLINK: nat := 0x5
  const RENAME: nat := 0x6
  const LINK: nat := 0x7
  const CHMOD: nat := 0x8
  const CHOWN: nat := 0x9
  const TRUNCATE: nat := 0xa
  const UTIME: nat := 0xb
  const FSYNC: nat := 0xc

  const HEADER_SIZE: nat := 56
  const PATH_MAX: nat := 4096

  /** A journal entry; `to` is empty for operations on one path. */
  datatype Record = Record(op: nat, path: string, to: string, mode: nat, rdev: nat, uid: nat, gid: nat,
                           size: nat, actime: nat, modtime: nat)

  // ---------------------------------------------------------------- numbers and names as bytes

  function Power(k: nat): nat {
    if k == 0 then 1 else 256 * Power(k - 1)
  }

  /** The low `k` bytes of a number, lowest first. */
  function Word(n: nat, k: nat): (s: seq<byte>)
    ensures |s| == k
  {
    if k == 0 then [] else [n % 256] + Word(n / 256, k - 1)
  }

  function Number(s: seq<byte>): nat {
    if s == [] then 0 else s[0] + 256 * Number(s[1..])
  }

  lemma {:induction false} WordRead(n: nat, k: nat)
    requires n < Power(k)
    ensures Number(Word(n, k)) == n
  {
    if k > 0 {
      WordRead(n / 256, k - 1);
      assert Word(n, k)[1..] == Word(n / 256, k - 1);
    }
  }

  ghost predicate ByteText(s: string) {
    forall i :: 0 <= i < |s| ==> s[i] as int < 256
  }

  function Bytes(s: string): (b: seq<byte>)
    ensures |b| == |s|
  {
    seq(|s|, i requires 0 <= i < |s| => (s[i] as int % 256) as byte)
  }

  function Text(b: seq<byte>): string {
    seq(|b|, i requires 0 <= i < |b| => b[i] as char)
  }

  lemma TextRead(s: string)
    requires ByteText(s)
    ensures Text(Bytes(s)) == s
  {
  }

  // ---------------------------------------------------------------- records as bytes

  /** The fields fit their C types, the names are strings of bytes that fit their buffers. */
  ghost predicate Encodable(r: Record) {
    && ByteText(r.path) && ByteText(r.to) && |r.path| < PATH_MAX && |r.to| < PATH_MAX
    && r.op < Power(4) && r.mode < Power(4) && r.rdev < Power(8) && r.uid < Power(4) && r.gid < Power(4)
    && r.size < Power(8) && r.actime < Power(8) && r.modtime < Power(8)
  }

  function Header(r: Record): (b: seq<byte>)
    ensures |b| == HEADER_SIZE
  {
    Word(r.op, 4) + Word(|r.path|, 4) + Word(|r.to|, 4) + Word(r.mode, 4) + Word(r.rdev, 8)
    + Word(r.uid, 4) + Word(r.gid, 4) + Word(r.size, 8) + Word(r.actime, 8) + Word(r.modtime, 8)
  }

  function Encode(r: Record): seq<byte> {
    Header(r) + Bytes(r.path) + Bytes(r.to)
  }

  function EncodeAll(s: seq<Record>): seq<byte> {
    if s == [] then [] else Encode(s[0]) + EncodeAll(s[1..])
  }

  /** What a header says, with the sizes of the two names. */
  function ReadHeader(b: seq<byte>): (Record, nat, nat)
    requires |b| == HEADER_SIZE
  {
    (Record(Number(b[0..4]), "", "", Number(b[12..16]), Number(b[16..24]), Number(b[24..28]), Number(b[28..32]),
            Number(b[32..40]), Number(b[40..48]), Number(b[48..56])),
     Number(b[4..8]), Number(b[8..12]))
  }

  // ---------------------------------------------------------------- where in a record the fields stand

  /** The byte of a number that counts for `256` to the power of `j`. */
  ghost function Digit(n: nat, j: nat): nat {
    if j == 0 then n % 256 else Digit(n / 256, j - 1)
  }

  /** The `k` bytes from `at` on are the low bytes of `n`, lowest first. */
  ghost predicate StandsAt(b: seq<byte>, at: nat, k: nat, n: nat) {
    at + k <= |b| && forall j :: 0 <= j < k ==> b[at + j] == Digit(n, j)
  }

  lemma {:induction false} WordDigit(n: nat, k: nat, j: nat)
    requires j < k
    ensures Word(n, k)[j] == Digit(n, j)
  {
    if j > 0 {
      WordDigit(n / 256, k - 1, j - 1);
    }
  }

  lemma WordStands(b: seq<byte>, at: nat, k: nat, n: nat)
    requires at + k <= |b| && b[at..at + k] == Word(n, k)
    ensures StandsAt(b, at, k, n)
  {
    forall j | 0 <= j < k
      ensures b[at + j] == Digit(n, j)
    {
      WordDigit(n, k, j);
      assert b[at + j] == b[at..at + k][j];
    }
  }

  lemma HeaderParts(r: Record)
    ensures
      var h := Header(r);
      && h[0..4] == Word(r.op, 4) && h[4..8] == Word(|r.path|, 4) && h[8..12] == Word(|r.to|, 4)
      && h[12..16] == Word(r.mode, 4) && h[16..24] == Word(r.rdev, 8) && h[24..28] == Word(r.uid, 4)
      && h[28..32] == Word(r.gid, 4) && h[32..40] == Word(r.size, 8)
      && h[40..48] == Word(r.actime, 8) && h[48..56] == Word(r.modtime, 8)
  {
    hide Word;
    var h := Header(r);
    assert h[..8] == Word(r.op, 4) + Word(|r.path|, 4);
    assert h[8..16] == Word(|r.to|, 4) + Word(r.mode, 4);
    assert h[16..24] == Word(r.rdev, 8);
    assert h[24..32] == Word(r.uid, 4) + Word(r.gid, 4);
    assert h[32..] == Word(r.size, 8) + Word(r.actime, 8) + Word(r.modtime, 8);
    var t := h[32..];
    assert t[..8] == Word(r.size, 8) && t[8..16] == Word(r.actime, 8) && t[16..] == Word(r.modtime, 8);
    assert h[32..40] == t[..8] && h[40..48] == t[8..16] && h[48..56] == t[16..];
  }

  /** A record in the journal: the fields of the C structure at their offsets, then the two names. */
  lemma Layout(r: Record)
    ensures
      var b := Encode(r);
      && |b| == 56 + |r.path| + |r.to|
      && StandsAt(b, 0, 4, r.op) && StandsAt(b, 4, 4, |r.path|) && StandsAt(b, 8, 4, |r.to|) && StandsAt(b, 12, 4, r.mode)
      && StandsAt(b, 16, 8, r.rdev) && StandsAt(b, 24, 4, r.uid) && StandsAt(b, 28, 4, r.gid) && StandsAt(b, 32, 8, r.size)
      && StandsAt(b, 40, 8, r.actime) && StandsAt(b, 48, 8, r.modtime)
      && (forall i :: 0 <= i < |r.path| ==> b[56 + i] == r.path[i] as int % 256)
      && (forall i :: 0 <= i < |r.to| ==> b[56 + |r.path| + i] == r.to[i] as int % 256)
  {
    hide Word, Power, StandsAt;
    var b, h := Encode(r), Header(r);
    assert b[..56] == h;
    HeaderParts(r);
    FieldStands(r, 0, 4, r.op);
    FieldStands(r, 4, 4, |r.path|);
    FieldStands(r, 8, 4, |r.to|);
    FieldStands(r, 12, 4, r.mode);
    FieldStands(r, 16, 8, r.rdev);
    FieldStands(r, 24, 4, r.uid);
    FieldStands(r, 28, 4, r.gid);
    FieldStands(r, 32, 8, r.size);
    FieldStands(r, 40, 8, r.actime);
    FieldStands(r, 48, 8, r.modtime);
  }

  lemma FieldStands(r: Record, at: nat, k: nat, n: nat)
    requires at + k <= 56 && Header(r)[at..at + k] == Word(n, k)
    ensures StandsAt(Encode(r), at, k, n)
  {
    hide Header;
    assert Encode(r)[at..at + k] == Header(r)[at..at + k];
    WordStands(Encode(r), at, k, n);
  }

  /** Each field is read from the bytes it was written to. */
  lemma HeaderFields(r: Record)
    ensures
      ReadHeader(Header(r)) ==
      (Record(Number(Word(r.op, 4)), "", "", Number(Word(r.mode, 4)), Number(Word(r.rdev, 8)), Number(Word(r.uid, 4)),
              Number(Word(r.gid, 4)), Number(Word(r.size, 8)), Number(Word(r.actime, 8)), Number(Word(r.modtime, 8))),
       Number(Word(|r.path|, 4)), Number(Word(|r.to|, 4)))
  {
    hide Word, Number;
    var b := Header(r);
    HeaderParts(r);
  }

  lemma HeaderRead(r: Record)
    requires Encodable(r)
    ensures ReadHeader(Header(r)) == (r.(path := "", to := ""), |r.path|, |r.to|)
  {
    hide Word, Number, Header, ReadHeader, ByteText;
    assert Power(4) == 0x1_0000_0000;
    HeaderFields(r);
    WordRead(r.op, 4);
    WordRead(|r.path|, 4);
    WordRead(|r.to|, 4);
    WordRead(r.mode, 4);
    WordRead(r.rdev, 8);
    WordRead(r.uid, 4);
    WordRead(r.gid, 4);
    WordRead(r.size, 8);
    WordRead(r.actime, 8);
    WordRead(r.modtime, 8);
  }

  lemma {:induction false} EncodeAllJoined(a: seq<Record>, b: seq<Record>)
    ensures EncodeAll(a + b) == EncodeAll(a) + EncodeAll(b)
  {
    if a == [] {
      assert a + b == b;
    } else {
      assert (a + b)[1..] == a[1..] + b;
      EncodeAllJoined(a[1..], b);
    }
  }

  lemma EncodeAllOne(a: seq<Record>, r: Record)
    ensures EncodeAll(a + [r]) == EncodeAll(a) + Encode(r)
  {
    EncodeAllJoined(a, [r]);
    assert EncodeAll([r]) == Encode(r) + EncodeAll([]);
  }

  // ---------------------------------------------------------------- reading

  datatype Entry = Entry(record: Record) | End | Broken

  /** A file open for reading: what is still ahead. A read that comes short leaves `errno` alone. */
  class Reader {
    var rest: seq<byte>
    const errno: nat

    constructor (data: seq<byte>, errno: nat)
      ensures rest == data && this.errno == errno
    {
      rest := data;
      this.errno := errno;
    }

    /** Reads up to `n` bytes; fewer only at the end of the file. */
    method Read(n: nat) returns (b: seq<byte>)
      modifies this
      ensures b == old(rest)[..if n < |old(rest)| then n else |old(rest)|] && old(rest) == b + rest
    {
      var k := if n < |rest| then n else |rest|;
      b := rest[..k];
      rest := rest[k..];
    }

    /** Reads one entry, the way it was written. A part that comes short is answered with `errno`,
        and an answer of 0 means the end of the file. */
    method ReadEntry() returns (e: Entry)
      modifies this
      ensures old(rest) == [] ==> e.End?
      ensures e == NextEntry(old(rest), errno).0 && rest == NextEntry(old(rest), errno).1
    {
      var b := Read(HEADER_SIZE);
      if |b| == 0 { return End; }
      if |b| != HEADER_SIZE { return Short(errno); }
      var head := ReadHeader(b);
      var path := Read(head.1);
      if |path| != head.1 { return Short(errno); }
      var to := [];
      if head.2 != 0 {
        to := Read(head.2);
        if |to| != head.2 { return Short(errno); }
      }
      e := Entry(head.0.(path := Text(path), to := Text(to)));
    }
  }

  /** What callers make of the answer to a read that came short. */
  function Short(errno: nat): Entry {
    if errno == 0 then End else Broken
  }

  /** The entry at the beginning of the bytes, and what follows. */
  function NextEntry(b: seq<byte>, errno: nat): (Entry, seq<byte>) {
    if b == [] then (End, [])
    else if |b| < HEADER_SIZE then (Short(errno), [])
    else
      var head := ReadHeader(b[..HEADER_SIZE]);
      var names := b[HEADER_SIZE..];
      if |names| < head.1 then (Short(errno), [])
      else if |names| - head.1 < head.2 then (Short(errno), [])
      else (Entry(head.0.(path := Text(names[..head.1]), to := Text(names[head.1..][..head.2]))), names[head.1..][head.2..])
  }

  /** What was written is read back, whatever follows it. */
  lemma EntryRead(r: Record, more: seq<byte>, errno: nat)
    requires Encodable(r)
    ensures NextEntry(Encode(r) + more, errno) == (Entry(r), more)
  {
    hide Header, ReadHeader, Power;
    var b := Encode(r) + more;
    assert b[..HEADER_SIZE] == Header(r);
    HeaderRead(r);
    var names := b[HEADER_SIZE..];
    assert names == Bytes(r.path) + Bytes(r.to) + more;
    assert names[..|r.path|] == Bytes(r.path);
    assert names[|r.path|..][..|r.to|] == Bytes(r.to);
    assert names[|r.path|..][|r.to|..] == more;
    TextRead(r.path);
    TextRead(r.to);
  }

  /** A record that was cut off while it was written is noticed exactly if some earlier call left an
      error behind; else it passes for the end of the journal. */
  lemma CutOff(r: Record, n: nat, errno: nat)
    requires Encodable(r) && 0 < n < |Encode(r)|
    ensures NextEntry(Encode(r)[..n], errno).0 == if errno == 0 then End else Broken
  {
    var b := Encode(r)[..n];
    if n >= HEADER_SIZE {
      assert b[..HEADER_SIZE] == Header(r);
      HeaderRead(r);
    }
  }

  /** All entries up to the end of the bytes, or up to a broken one. */
  function Decoded(b: seq<byte>, errno: nat): seq<Record>
    decreases |b|
  {
    match NextEntry(b, errno)
    case (Entry(r), more) => [r] + Decoded(more, errno)
    case _ => []
  }

  /** Reading to the end reports no error. */
  predicate Silent(b: seq<byte>, errno: nat)
    decreases |b|
  {
    match NextEntry(b, errno)
    case (Entry(r), more) => Silent(more, errno)
    case (e, _) => e.End?
  }

  ghost predicate AllEncodable(s: seq<Record>) {
    forall i :: 0 <= i < |s| ==> Encodable(s[i])
  }

  /** Reading a journal to its end gives back what was written, whether or not the last entry was cut
      off. That it was is reported exactly if `errno` was not 0. */
  lemma {:induction false} JournalRead(s: seq<Record>, last: Record, n: nat, errno: nat)
    requires AllEncodable(s) && Encodable(last) && n < |Encode(last)|
    ensures Decoded(EncodeAll(s) + Encode(last)[..n], errno) == s
    ensures Silent(EncodeAll(s) + Encode(last)[..n], errno) <==> n == 0 || errno == 0
    decreases |s|
  {
    hide Encodable, Header, Word, NextEntry;
    var torn := Encode(last)[..n];
    if s == [] {
      assert EncodeAll(s) + torn == torn;
      if n > 0 { CutOff(last, n, errno); } else { NothingLeft(torn, errno); }
    } else {
      var more := EncodeAll(s[1..]) + torn;
      assert EncodeAll(s) + torn == Encode(s[0]) + more;
      EntryRead(s[0], more, errno);
      JournalRead(s[1..], last, n, errno);
      assert [s[0]] + s[1..] == s;
    }
  }

  lemma NothingLeft(b: seq<byte>, errno: nat)
    requires b == []
    ensures NextEntry(b, errno) == (End, [])
  {
  }

  /** A tear that nobody is told of: of a journal that holds the making of a directory, all but the
      last byte. */
  lemma TornUnnoticed()
    ensures
      var torn := Encode(Record(MKDIR, "/a", "", 0, 0, 0, 0, 0, 0, 0))[..HEADER_SIZE + 1];
      torn != [] && Decoded(torn, 0) == [] && Silent(torn, 0) && !Silent(torn, 5)
  {
    hide Header, Word, NextEntry;
    var r := Record(MKDIR, "/a", "", 0, 0, 0, 0, 0, 0, 0);
    assert Power(4) == 0x1_0000_0000;
    var torn := Encode(r)[..HEADER_SIZE + 1];
    assert EncodeAll([]) + torn == torn;
    JournalRead([], r, HEADER_SIZE + 1, 0);
    JournalRead([], r, HEADER_SIZE + 1, 5);
  }

  lemma DecodedOn(b: seq<byte>, errno: nat)
    ensures
      var e, more := NextEntry(b, errno).0, NextEntry(b, errno).1;
      if e.Entry? then
        |more| < |b| && Decoded(b, errno) == [e.record] + Decoded(more, errno) && Silent(b, errno) == Silent(more, errno)
      else Decoded(b, errno) == [] && Silent(b, errno) == e.End?
  {
  }

  /** The sequence of calls by which mcachefs reads the journal. */
  method ReadAll(data: seq<byte>, errno: nat) returns (s: seq<Record>, silent: bool)
    ensures s == Decoded(data, errno) && silent == Silent(data, errno)
  {
    hide NextEntry, Decoded, Silent;
    var file := new Reader(data, errno);
    s := [];
    while true
      invariant Decoded(data, errno) == s + Decoded(file.rest, errno) && Silent(data, errno) == Silent(file.rest, errno)
      decreases |file.rest|
    {
      DecodedOn(file.rest, errno);
      var e := file.ReadEntry();
      match e
      case End => return s, true;
      case Broken => return s, false;
      case Entry(r) =>
        assert s + ([r] + Decoded(file.rest, errno)) == s + [r] + Decoded(file.rest, errno);
        s := s + [r];
    }
  }
}
