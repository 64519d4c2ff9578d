/** RPM header blobs and the sentinel scan over an rpmdb.sqlite file (internal/container/rpm.go). The record layout
    is the one of the RPM package file format of the LSB Core specification, section "Header Structure", without the
    eight magic bytes, which SQLite-stored headers do not have. */
module Rpm {
  import opened Bytes
  import opened Text

  datatype Package = Package(database: string, name: seq<Byte>, version: seq<Byte>)

  const TAG_HEADER_IMMUTABLE: nat := 63
  const TAG_NAME: nat := 1000
  const TAG_VERSION: nat := 1001
  const TAG_RELEASE: nat := 1002
  const TYPE_BIN: nat := 7
  const TYPE_STRING: nat := 6
  const TYPE_STRING_ARRAY: nat := 8
  const TYPE_I18N_STRING: nat := 9
  const MAX_INDEX_COUNT: nat := 500
  const MAX_DATA_SIZE: nat := 10 * 1024 * 1024

  const SENTINEL: seq<Byte> := [0, 0, 0, 0x3F, 0, 0, 0, 7]
  const NUL: Byte := 0
  const DASH: Byte := 0x2D

  // ----- Headers and what they say ------------------------------------------------------

  datatype IndexEntry = IndexEntry(tag: nat, typ: nat, offset: nat, count: nat)

  datatype Header = Header(index: seq<IndexEntry>, data: seq<Byte>)

  predicate Wordy(e: IndexEntry) {
    e.tag < WORD && e.typ < WORD && e.offset < WORD && e.count < WORD
  }

  /** A header the decoder is willing to look at. */
  predicate WellFormed(h: Header) {
    && 0 < |h.index| <= MAX_INDEX_COUNT
    && 0 < |h.data| <= MAX_DATA_SIZE
    && forall i | 0 <= i < |h.index| :: Wordy(h.index[i])
  }

  predicate Stringy(typ: nat) {
    typ == TYPE_STRING || typ == TYPE_STRING_ARRAY || typ == TYPE_I18N_STRING
  }

  /** The NUL-terminated text an index entry points at. */
  function TextOf(e: IndexEntry, data: seq<Byte>): Option<seq<Byte>> {
    if !Stringy(e.typ) || e.offset >= |data| then None
    else
      var end := Index(data[e.offset..], NUL);
      if end < 0 then None else Some(data[e.offset..][..end])
  }

  /** The last readable text under a tag, or the empty text. */
  function LastText(index: seq<IndexEntry>, data: seq<Byte>, tag: nat): seq<Byte> {
    if index == [] then []
    else
      var last := index[|index| - 1];
      if last.tag == tag && TextOf(last, data).Some? then TextOf(last, data).value
      else LastText(index[..|index| - 1], data, tag)
  }

  function FullVersion(version: seq<Byte>, release: seq<Byte>): seq<Byte> {
    if release == [] then version else version + [DASH] + release
  }

  /** The package a header describes. */
  function PackageIn(h: Header): Option<Package> {
    var name := LastText(h.index, h.data, TAG_NAME);
    if name == [] then None
    else Some(Package("rpm", name,
                      FullVersion(LastText(h.index, h.data, TAG_VERSION), LastText(h.index, h.data, TAG_RELEASE))))
  }

  // ----- The wire format -----------------------------------------------------------------

  function EncodeEntry(e: IndexEntry): (b: seq<Byte>)
    requires Wordy(e)
    ensures |b| == 16
  {
    Word(e.tag) + Word(e.typ) + Word(e.offset) + Word(e.count)
  }

  function EncodeIndex(index: seq<IndexEntry>): (b: seq<Byte>)
    requires forall i | 0 <= i < |index| :: Wordy(index[i])
    ensures |b| == 16 * |index|
  {
    if index == [] then [] else EncodeIndex(index[..|index| - 1]) + EncodeEntry(index[|index| - 1])
  }

  function Encode(h: Header): (b: seq<Byte>)
    requires WellFormed(h)
    ensures |b| == 8 + 16 * |h.index| + |h.data|
  {
    Word(|h.index|) + Word(|h.data|) + EncodeIndex(h.index) + h.data
  }

  function ReadEntry(b: seq<Byte>): IndexEntry
    requires |b| >= 16
  {
    IndexEntry(U32(b[..4]), U32(b[4..8]), U32(b[8..12]), U32(b[12..16]))
  }

  function ReadIndex(b: seq<Byte>, n: nat): (index: seq<IndexEntry>)
    requires |b| >= 16 * n
    ensures |index| == n
    ensures forall i | 0 <= i < n :: index[i] == ReadEntry(b[16 * i..]) && Wordy(index[i])
  {
    if n == 0 then [] else ReadIndex(b, n - 1) + [ReadEntry(b[16 * (n - 1)..])]
  }

  /** The header at the start of some bytes. */
  function HeaderAt(b: seq<Byte>): (r: Option<Header>)
    ensures r.Some? ==> WellFormed(r.value)
  {
    if |b| < 8 then None
    else
      var nindex, hsize := U32(b[..4]), U32(b[4..8]);
      if nindex == 0 || nindex > MAX_INDEX_COUNT || hsize == 0 || hsize > MAX_DATA_SIZE then None
      else if 8 + 16 * nindex + hsize > |b| then None
      else
        var dataStart := 8 + 16 * nindex;
        Some(Header(ReadIndex(b[8..], nindex), b[dataStart..dataStart + hsize]))
  }

  lemma EntryRead(e: IndexEntry, post: seq<Byte>)
    requires Wordy(e)
    ensures ReadEntry(EncodeEntry(e) + post) == e
  {
    hide Word, U32;
    var b := EncodeEntry(e) + post;
    assert b[..4] == Word(e.tag) && b[4..8] == Word(e.typ) && b[8..12] == Word(e.offset) && b[12..16] == Word(e.count);
    WordRead(e.tag);
    WordRead(e.typ);
    WordRead(e.offset);
    WordRead(e.count);
  }

  lemma EntryWritten(b: seq<Byte>)
    requires |b| >= 16
    ensures EncodeEntry(ReadEntry(b)) == b[..16]
  {
    hide Word, U32;
    WordWritten(b[..4]);
    WordWritten(b[4..8]);
    WordWritten(b[8..12]);
    WordWritten(b[12..16]);
    assert b[..16] == b[..4] + b[4..8] + b[8..12] + b[12..16];
  }

  lemma {:induction false} IndexRead(index: seq<IndexEntry>, post: seq<Byte>)
    requires forall i | 0 <= i < |index| :: Wordy(index[i])
    ensures ReadIndex(EncodeIndex(index) + post, |index|) == index
  {
    hide EncodeEntry, ReadEntry;
    if index != [] {
      var init, last := index[..|index| - 1], index[|index| - 1];
      var b := EncodeIndex(index) + post;
      assert b == EncodeIndex(init) + (EncodeEntry(last) + post);
      IndexRead(init, EncodeEntry(last) + post);
      assert b[16 * |init|..] == EncodeEntry(last) + post;
      EntryRead(last, post);
      assert index == init + [last];
    }
  }

  lemma {:induction false} IndexWritten(b: seq<Byte>, n: nat)
    requires |b| >= 16 * n
    ensures EncodeIndex(ReadIndex(b, n)) == b[..16 * n]
  {
    hide EncodeEntry, ReadEntry;
    if n > 0 {
      var m := 16 * (n - 1);
      IndexWritten(b, n - 1);
      EntryWritten(b[m..]);
      assert ReadIndex(b, n)[..n - 1] == ReadIndex(b, n - 1);
      assert EncodeIndex(ReadIndex(b, n)) == b[..m] + b[m..][..16];
      assert b[..m + 16] == b[..m] + b[m..][..16];
    }
  }

  /** Decoding inverts encoding, whatever bytes follow the header. */
  lemma HeaderRead(h: Header, post: seq<Byte>)
    requires WellFormed(h)
    ensures HeaderAt(Encode(h) + post) == Some(h)
  {
    hide Word, U32, EncodeIndex, ReadIndex;
    var b := Encode(h) + post;
    var n, size := |h.index|, |h.data|;
    assert b[..4] == Word(n) && b[4..8] == Word(size);
    WordRead(n);
    WordRead(size);
    assert b[8..] == EncodeIndex(h.index) + (h.data + post);
    IndexRead(h.index, h.data + post);
    assert b[8 + 16 * n..8 + 16 * n + size] == h.data;
  }

  /** The decoder reads a header only where an encoding of that header stands. */
  lemma HeaderWritten(b: seq<Byte>)
    requires HeaderAt(b).Some?
    ensures StartsWith(b, Encode(HeaderAt(b).value))
  {
    hide Word, U32, EncodeIndex, ReadIndex;
    var h := HeaderAt(b).value;
    var n, size := U32(b[..4]), U32(b[4..8]);
    WordWritten(b[..4]);
    WordWritten(b[4..8]);
    IndexWritten(b[8..], n);
    assert b[8..][..16 * n] == b[8..8 + 16 * n];
    assert Encode(h) == b[..4] + b[4..8] + b[8..8 + 16 * n] + b[8 + 16 * n..8 + 16 * n + size];
  }

  // ----- The decoder ----------------------------------------------------------------------

  function PackageAt(b: seq<Byte>): Option<Package> {
    match HeaderAt(b)
    case None => None
    case Some(h) => PackageIn(h)
  }

  lemma EntryOfHeader(b: seq<Byte>, h: Header, i: nat)
    requires HeaderAt(b) == Some(h) && i < |h.index|
    ensures 8 + i * 16 + 16 <= |b|
    ensures var entry := b[8 + i * 16..];
            var e := h.index[i];
            e.tag == U32(entry[0..4]) && e.typ == U32(entry[4..8]) && e.offset == U32(entry[8..12])
  {
    hide U32;
    var entry := b[8 + i * 16..];
    assert b[8..][16 * i..] == entry;
    assert h.index[i] == ReadEntry(entry);
    assert entry[0..4] == entry[..4];
  }

  lemma HeaderSizes(b: seq<Byte>)
    ensures HeaderAt(b).Some? <==>
              && |b| >= 8 && 0 < U32(b[0..4]) <= MAX_INDEX_COUNT && 0 < U32(b[4..8]) <= MAX_DATA_SIZE
              && 8 + 16 * U32(b[0..4]) + U32(b[4..8]) <= |b|
    ensures HeaderAt(b).Some? ==> |HeaderAt(b).value.index| == U32(b[0..4]) && |HeaderAt(b).value.data| == U32(b[4..8])
  {
    hide U32;
    if |b| >= 8 {
      assert b[0..4] == b[..4];
    }
  }

  lemma TextOfHeader(b: seq<Byte>, h: Header, e: IndexEntry)
    requires HeaderAt(b) == Some(h) && Stringy(e.typ) && e.offset < |h.data|
    ensures var dataStart := 8 + 16 * |h.index|;
            var dataEnd := dataStart + |h.data|;
            dataEnd <= |b| &&
            var end := Index(b[dataStart + e.offset..dataEnd], NUL);
            TextOf(e, h.data) == if end < 0 then None else Some(b[dataStart + e.offset..dataStart + e.offset + end])
  {
    hide ReadIndex, U32, Index;
    var dataStart := 8 + 16 * |h.index|;
    var dataEnd := dataStart + |h.data|;
    assert h.data[e.offset..] == b[dataStart + e.offset..dataEnd];
    var end := Index(b[dataStart + e.offset..dataEnd], NUL);
    if end >= 0 {
      assert h.data[e.offset..][..end] == b[dataStart + e.offset..dataStart + e.offset + end];
    }
  }

  lemma NoTextYet(index: seq<IndexEntry>, data: seq<Byte>)
    ensures forall tag :: LastText(index[..0], data, tag) == []
  {}

  lemma LastTextOneMore(index: seq<IndexEntry>, i: nat, data: seq<Byte>, tag: nat)
    requires i < |index|
    ensures LastText(index[..i + 1], data, tag) ==
            if index[i].tag == tag && TextOf(index[i], data).Some? then TextOf(index[i], data).value
            else LastText(index[..i], data, tag)
  {
    assert index[..i + 1][..i] == index[..i];
  }

  lemma NoText(e: IndexEntry, data: seq<Byte>)
    ensures !Stringy(e.typ) || e.offset >= |data| ==> TextOf(e, data) == None
  {}

  /** The NUL-terminated value of one index entry, cut out of the data area in place. */
  method ValueAt(b: seq<Byte>, dataStart: nat, dataEnd: nat, typ: nat, off: nat, ghost h: Header, ghost e: IndexEntry)
    returns (s: Option<seq<Byte>>)
    requires HeaderAt(b) == Some(h) && dataStart == 8 + 16 * |h.index| && dataEnd == dataStart + |h.data| <= |b|
    requires typ == e.typ && off == e.offset
    ensures s == TextOf(e, h.data)
  {
    hide HeaderAt, Index, TextOf;
    NoText(e, h.data);
    if typ != TYPE_STRING && typ != TYPE_STRING_ARRAY && typ != TYPE_I18N_STRING {
      return None;
    }
    var valStart := dataStart + off;
    if valStart >= dataEnd {
      return None;
    }
    TextOfHeader(b, h, e);
    var end := Index(b[valStart..dataEnd], NUL);
    if end < 0 {
      return None;
    }
    return Some(b[valStart..valStart + end]);
  }

  method DecodeRPMHeader(b: seq<Byte>) returns (pkg: Option<Package>)
    ensures pkg == PackageAt(b)
  {
    hide U32, TextOf, HeaderAt, LastText, Index;
    HeaderSizes(b);
    if |b| < 8 {
      return None;
    }
    var nindex := U32(b[0..4]);
    var hsize := U32(b[4..8]);
    if nindex == 0 || nindex > MAX_INDEX_COUNT {
      return None;
    }
    if hsize == 0 || hsize > MAX_DATA_SIZE {
      return None;
    }
    var indexStart := 8;
    var dataStart := indexStart + nindex * 16;
    var dataEnd := dataStart + hsize;
    if dataEnd > |b| {
      return None;
    }
    ghost var h := HeaderAt(b).value;
    var name, version, release := [], [], [];
    NoTextYet(h.index, h.data);
    for i := 0 to nindex
      invariant name == LastText(h.index[..i], h.data, TAG_NAME)
      invariant version == LastText(h.index[..i], h.data, TAG_VERSION)
      invariant release == LastText(h.index[..i], h.data, TAG_RELEASE)
    {
      ghost var e := h.index[i];
      LastTextOneMore(h.index, i, h.data, TAG_NAME);
      LastTextOneMore(h.index, i, h.data, TAG_VERSION);
      LastTextOneMore(h.index, i, h.data, TAG_RELEASE);
      EntryOfHeader(b, h, i);
      var entry := b[indexStart + i * 16..];
      var tag, typ, off := U32(entry[0..4]), U32(entry[4..8]), U32(entry[8..12]);
      if tag != TAG_NAME && tag != TAG_VERSION && tag != TAG_RELEASE {
        continue;
      }
      var text := ValueAt(b, dataStart, dataEnd, typ, off, h, e);
      if text.None? {
        continue;
      }
      var s := text.value;
      if tag == TAG_NAME {
        name := s;
      } else if tag == TAG_VERSION {
        version := s;
      } else {
        release := s;
      }
    }
    assert h.index[..nindex] == h.index;
    if name == [] {
      return None;
    }
    var v := version;
    if release != [] {
      v := version + [DASH] + release;
    }
    return Some(Package("rpm", name, v));
  }

  /** A well-formed header followed by anything decodes to the package it describes. */
  lemma DecodeInvertsEncode(h: Header, post: seq<Byte>)
    requires WellFormed(h)
    ensures PackageAt(Encode(h) + post) == PackageIn(h)
  {
    HeaderRead(h, post);
  }

  // ----- The scan ---------------------------------------------------------------------------

  /** The package decoded for a sentinel at a position, if there is one. */
  function CandidateAt(data: seq<Byte>, i: nat): Option<Package>
    requires i <= |data|
  {
    if i >= 8 && StartsWith(data[i..], SENTINEL) then PackageAt(data[i - 8..]) else None
  }

  /** The packages decoded at the positions before n, in order. */
  function Decoded(data: seq<Byte>, n: nat): seq<Package>
    requires n <= |data| + 1
  {
    if n == 0 then []
    else Decoded(data, n - 1) + (match CandidateAt(data, n - 1) case None => [] case Some(p) => [p])
  }

  /** Each element where it first occurs. */
  function Firsts<T(==)>(s: seq<T>): seq<T> {
    if s == [] then []
    else
      var before, last := Firsts(s[..|s| - 1]), s[|s| - 1];
      if last in before then before else before + [last]
  }

  lemma {:induction false} FirstsMembers<T>(s: seq<T>, x: T)
    ensures x in Firsts(s) <==> x in s
  {
    if s != [] {
      FirstsMembers(s[..|s| - 1], x);
      assert s == s[..|s| - 1] + [s[|s| - 1]];
    }
  }

  lemma {:induction false} FirstsDistinct<T>(s: seq<T>)
    ensures forall i, j | 0 <= i < j < |Firsts(s)| :: Firsts(s)[i] != Firsts(s)[j]
  {
    if s != [] {
      FirstsDistinct(s[..|s| - 1]);
    }
  }

  /** The database is scanned at every position: the distinct packages in order of first occurrence. */
  function PackagesIn(data: seq<Byte>): seq<Package> {
    Firsts(Decoded(data, |data| + 1))
  }

  /** The text under a tag has no NUL, so that a NUL separates two of them unambiguously. */
  lemma {:induction false} LastTextNoNul(index: seq<IndexEntry>, data: seq<Byte>, tag: nat)
    ensures NUL !in LastText(index, data, tag)
  {
    if index != [] {
      LastTextNoNul(index[..|index| - 1], data, tag);
    }
  }

  predicate Printable(p: Package) {
    p.database == "rpm" && p.name != [] && NUL !in p.name && NUL !in p.version
  }

  lemma DecodedPrintable(b: seq<Byte>)
    requires PackageAt(b).Some?
    ensures Printable(PackageAt(b).value)
  {
    var h := HeaderAt(b).value;
    LastTextNoNul(h.index, h.data, TAG_NAME);
    LastTextNoNul(h.index, h.data, TAG_VERSION);
    LastTextNoNul(h.index, h.data, TAG_RELEASE);
  }

  function Key(p: Package): seq<Byte> { p.name + [NUL] + p.version }

  lemma NameEnds(p: Package)
    requires NUL !in p.name
    ensures Index(Key(p), NUL) == |p.name|
  {
    assert Key(p)[|p.name|] == NUL;
    assert forall k | 0 <= k < |p.name| :: Key(p)[k] == p.name[k];
  }

  /** The deduplication key determines the package. */
  lemma KeyInjective(p: Package, q: Package)
    requires Printable(p) && Printable(q) && Key(p) == Key(q)
    ensures p == q
  {
    var k := Key(p);
    NameEnds(p);
    NameEnds(q);
    assert p.name == k[..|p.name|] && q.name == k[..|q.name|];
    assert p.version == k[|p.name| + 1..] && q.version == k[|q.name| + 1..];
  }

  /** Nothing is decoded between two sentinels. */
  lemma {:induction false} DecodedGap(data: seq<Byte>, lo: nat, hi: nat)
    requires lo <= hi <= |data| + 1
    requires forall i | lo <= i < hi :: CandidateAt(data, i).None?
    ensures Decoded(data, hi) == Decoded(data, lo)
    decreases hi
  {
    hide CandidateAt;
    if lo < hi {
      DecodedGap(data, lo, hi - 1);
      assert CandidateAt(data, hi - 1).None?;
    }
  }

  lemma DecodedOneMore(data: seq<Byte>, i: nat)
    requires i <= |data|
    ensures Decoded(data, i + 1) ==
            if CandidateAt(data, i).None? then Decoded(data, i) else Decoded(data, i) + [CandidateAt(data, i).value]
  {
    hide CandidateAt;
  }

  method ParseRPMDB(data: seq<Byte>) returns (out: seq<Package>)
    ensures out == PackagesIn(data)
  {
    hide PackageAt, StartsWith, Printable, Key;
    out := [];
    var seen: set<seq<Byte>> := {};
    var pos := 0;
    while true
      invariant pos <= |data|
      invariant out == Firsts(Decoded(data, pos))
      invariant forall p | p in out :: Printable(p)
      invariant forall k :: k in seen <==> exists p | p in out :: Key(p) == k
      decreases |data| - pos
    {
      var idx := Find(data, SENTINEL, pos);
      if idx < 0 {
        DecodedGap(data, pos, |data| + 1);
        return;
      }
      SentinelFits(data, idx);
      DecodedGap(data, pos, idx);
      DecodedOneMore(data, idx);
      var hdrStart := idx - 8;
      pos := idx + 1;
      if hdrStart < 0 {
        continue;
      }
      var pkg := DecodeRPMHeader(data[hdrStart..]);
      if pkg.None? {
        continue;
      }
      var p := pkg.value;
      DecodedPrintable(data[hdrStart..]);
      FirstsOneMore(Decoded(data, idx), p);
      var k := Key(p);
      if k in seen {
        var q :| q in out && Key(q) == k;
        KeyInjective(p, q);
        continue;
      }
      assert p !in out;
      seen := seen + {k};
      out := out + [p];
    }
  }

  lemma FirstsOneMore<T>(s: seq<T>, x: T)
    ensures Firsts(s + [x]) == if x in Firsts(s) then Firsts(s) else Firsts(s) + [x]
  {
    assert (s + [x])[..|s|] == s;
  }

  lemma SentinelFits(data: seq<Byte>, i: nat)
    requires i <= |data| && StartsWith(data[i..], SENTINEL)
    ensures i + 8 <= |data|
  {}

  lemma {:induction false} DecodedMembers(data: seq<Byte>, n: nat, p: Package)
    requires n <= |data| + 1
    ensures p in Decoded(data, n) <==> exists i | 0 <= i < n :: CandidateAt(data, i) == Some(p)
  {
    hide CandidateAt;
    if n > 0 {
      DecodedMembers(data, n - 1, p);
      if CandidateAt(data, n - 1).Some? {
        assert p in Decoded(data, n) <==> p in Decoded(data, n - 1) || p == CandidateAt(data, n - 1).value;
      }
    }
  }

  /** On any bytes at all, the result holds no package twice, and holds exactly those that some sentinel at an offset
      of at least eight has a decodable header around it for. */
  lemma ScanIsComplete(data: seq<Byte>, p: Package)
    ensures p in PackagesIn(data) <==> exists i | 0 <= i <= |data| :: CandidateAt(data, i) == Some(p)
    ensures forall i, j | 0 <= i < j < |PackagesIn(data)| :: PackagesIn(data)[i] != PackagesIn(data)[j]
  {
    DecodedMembers(data, |data| + 1, p);
    FirstsMembers(Decoded(data, |data| + 1), p);
    FirstsDistinct(Decoded(data, |data| + 1));
  }

  lemma SentinelIsEncoded()
    ensures Word(TAG_HEADER_IMMUTABLE) + Word(TYPE_BIN) == SENTINEL
  {}

  lemma {:induction false} EncodeIndexStarts(index: seq<IndexEntry>)
    requires index != [] && forall i | 0 <= i < |index| :: Wordy(index[i])
    ensures EncodeIndex(index)[..16] == EncodeEntry(index[0])
  {
    if |index| > 1 {
      EncodeIndexStarts(index[..|index| - 1]);
    } else {
      assert EncodeIndex(index[..0]) == [];
    }
  }

  /** A header that starts with HEADERIMMUTABLE is found wherever it stands, whatever surrounds it. */
  lemma EmbeddedHeaderFound(pre: seq<Byte>, h: Header, post: seq<Byte>)
    requires WellFormed(h) && PackageIn(h).Some?
    requires h.index[0].tag == TAG_HEADER_IMMUTABLE && h.index[0].typ == TYPE_BIN
    ensures PackageIn(h).value in PackagesIn(pre + Encode(h) + post)
  {
    hide Word, EncodeIndex, PackageIn, PackageAt, PackagesIn;
    var data, i := pre + Encode(h) + post, |pre| + 8;
    assert data[i - 8..] == Encode(h) + post;
    DecodeInvertsEncode(h, post);
    EncodeIndexStarts(h.index);
    SentinelIsEncoded();
    assert EncodeEntry(h.index[0])[..8] == SENTINEL;
    assert data[i..][..8] == EncodeIndex(h.index)[..16][..8];
    assert CandidateAt(data, i) == PackageIn(h);
    ScanIsComplete(data, PackageIn(h).value);
  }

  // ----- The decoder on the bytes as they are -----------------------------------------------

  /** Four bytes from a position on, the most significant first. */
  function Big(b: seq<Byte>, at: nat): nat
    requires at + 4 <= |b|
  {
    0x1000000 * (b[at] as nat) + 0x10000 * (b[at + 1] as nat) + 0x100 * (b[at + 2] as nat) + (b[at + 3] as nat)
  }

  lemma BigIsWord(b: seq<Byte>, at: nat)
    requires at + 4 <= |b|
    ensures U32(b[at..at + 4]) == Big(b, at)
  {}

  /** The two sizes at the start are in range, and the bytes hold what they announce. */
  predicate Complete(b: seq<Byte>) {
    && |b| >= 8 && 1 <= Big(b, 0) <= 500 && 1 <= Big(b, 4) <= 10485760
    && 8 + 16 * Big(b, 0) + Big(b, 4) <= |b|
  }

  /** The text stands at `start`, and the NUL that ends it before `end`. */
  predicate TextAt(b: seq<Byte>, start: nat, end: nat, text: seq<Byte>)
    requires end <= |b|
  {
    start + |text| < end && b[start..start + |text|] == text && 0 !in text && b[start + |text|] == 0
  }

  /** Index entry i has the tag and a string type, and its offset leads to the text in the data. */
  predicate Points(b: seq<Byte>, i: nat, tag: nat, text: seq<Byte>)
    requires Complete(b)
  {
    && i < Big(b, 0) && Big(b, 8 + 16 * i) == tag && Big(b, 12 + 16 * i) in {6, 8, 9}
    && var data := 8 + 16 * Big(b, 0);
       TextAt(b, data + Big(b, 16 + 16 * i), data + Big(b, 4), text)
  }

  /** None of the entries lo to hi points at a text of the tag. */
  ghost predicate Nothing(b: seq<Byte>, lo: nat, hi: nat, tag: nat)
    requires Complete(b)
  {
    forall j: nat, text :: lo <= j < hi ==> !Points(b, j, tag, text)
  }

  /** The first n entries say the text for a tag: the last of them that points at a text of the tag points at this one,
      or there is none and the text is empty. */
  ghost predicate SaysFirst(b: seq<Byte>, n: nat, tag: nat, text: seq<Byte>)
    requires Complete(b)
  {
    || (exists i: nat :: i < n && Points(b, i, tag, text) && Nothing(b, i + 1, n, tag))
    || (text == [] && Nothing(b, 0, n, tag))
  }

  /** The whole header says the text for a tag. */
  ghost predicate Says(b: seq<Byte>, tag: nat, text: seq<Byte>)
    requires Complete(b)
  {
    SaysFirst(b, Big(b, 0), tag, text)
  }

  lemma CompleteIsHeader(b: seq<Byte>)
    ensures Complete(b) <==> HeaderAt(b).Some?
    ensures Complete(b) ==> |HeaderAt(b).value.index| == Big(b, 0) && |HeaderAt(b).value.data| == Big(b, 4)
  {
    hide U32, HeaderAt;
    HeaderSizes(b);
    if |b| >= 8 {
      BigIsWord(b, 0);
      BigIsWord(b, 4);
    }
  }

  lemma EntryIsBytes(b: seq<Byte>, i: nat)
    requires Complete(b) && i < Big(b, 0)
    ensures HeaderAt(b).Some? && i < |HeaderAt(b).value.index|
    ensures var e := HeaderAt(b).value.index[i];
            e.tag == Big(b, 8 + 16 * i) && e.typ == Big(b, 12 + 16 * i) && e.offset == Big(b, 16 + 16 * i)
  {
    hide U32, HeaderAt, Big;
    CompleteIsHeader(b);
    EntryOfHeader(b, HeaderAt(b).value, i);
    var entry := b[8 + i * 16..];
    assert entry[0..4] == b[8 + 16 * i..12 + 16 * i];
    assert entry[4..8] == b[12 + 16 * i..16 + 16 * i];
    assert entry[8..12] == b[16 + 16 * i..20 + 16 * i];
    BigIsWord(b, 8 + 16 * i);
    BigIsWord(b, 12 + 16 * i);
    BigIsWord(b, 16 + 16 * i);
  }

  lemma PointsByFields(b: seq<Byte>, i: nat, e: IndexEntry, tag: nat, text: seq<Byte>)
    requires Complete(b) && i < Big(b, 0)
    requires e.tag == Big(b, 8 + 16 * i) && e.typ == Big(b, 12 + 16 * i) && e.offset == Big(b, 16 + 16 * i)
    ensures var data := 8 + 16 * Big(b, 0);
            Points(b, i, tag, text) <==>
            e.tag == tag && Stringy(e.typ) && TextAt(b, data + e.offset, data + Big(b, 4), text)
  {
    hide Big, TextAt;
  }

  lemma TextByBytes(b: seq<Byte>, h: Header, e: IndexEntry, text: seq<Byte>)
    requires HeaderAt(b) == Some(h) && 8 + 16 * |h.index| + |h.data| <= |b|
    ensures var data := 8 + 16 * |h.index|;
            TextOf(e, h.data) == Some(text) <==> Stringy(e.typ) && TextAt(b, data + e.offset, data + |h.data|, text)
  {
    hide HeaderAt, Index, TextAt, TextOf;
    NoText(e, h.data);
    var start, end := 8 + 16 * |h.index| + e.offset, 8 + 16 * |h.index| + |h.data|;
    if !Stringy(e.typ) {
    } else if e.offset < |h.data| {
      TextOfHeader(b, h, e);
      FirstNul(b, start, end, text);
    } else {
      NoTextBehind(b, start, end, text);
    }
  }

  lemma PointsIsText(b: seq<Byte>, i: nat, tag: nat, text: seq<Byte>)
    requires Complete(b) && i < Big(b, 0)
    ensures HeaderAt(b).Some? && i < |HeaderAt(b).value.index|
    ensures var h := HeaderAt(b).value;
            Points(b, i, tag, text) <==> h.index[i].tag == tag && TextOf(h.index[i], h.data) == Some(text)
  {
    hide HeaderAt, Big, TextAt, TextOf, Stringy, Points;
    CompleteIsHeader(b);
    EntryIsBytes(b, i);
    var h := HeaderAt(b).value;
    PointsByFields(b, i, h.index[i], tag, text);
    TextByBytes(b, h, h.index[i], text);
  }

  lemma NoTextBehind(b: seq<Byte>, start: nat, end: nat, text: seq<Byte>)
    requires end <= |b| && end <= start
    ensures !TextAt(b, start, end, text)
  {}

  /** The bytes up to the first NUL are the only text there. */
  lemma FirstNul(b: seq<Byte>, start: nat, end: nat, text: seq<Byte>)
    requires start <= end <= |b|
    ensures var n := Index(b[start..end], NUL);
            (n >= 0 && b[start..start + n] == text) <==> TextAt(b, start, end, text)
  {
    var s := b[start..end];
    var n := Index(s, NUL);
    if TextAt(b, start, end, text) {
      assert s[|text|] == 0 && forall k | 0 <= k < |text| :: s[k] == text[k];
    }
    if n >= 0 {
      assert forall k | 0 <= k < n :: b[start..start + n][k] == s[k];
    }
  }

  lemma {:induction false} LastTextIs(b: seq<Byte>, n: nat, tag: nat)
    requires Complete(b) && n <= Big(b, 0)
    ensures HeaderAt(b).Some? && n <= |HeaderAt(b).value.index|
    ensures SaysFirst(b, n, tag, LastText(HeaderAt(b).value.index[..n], HeaderAt(b).value.data, tag))
  {
    hide HeaderAt, Big, Points, TextOf, Nothing, Complete;
    CompleteIsHeader(b);
    var h := HeaderAt(b).value;
    NothingLeft(b, n, tag);
    if n > 0 {
      LastTextIs(b, n - 1, tag);
      LastTextOneMore(h.index, n - 1, h.data, tag);
      var before, last := LastText(h.index[..n - 1], h.data, tag), h.index[n - 1];
      if last.tag == tag && TextOf(last, h.data).Some? {
        PointsIsText(b, n - 1, tag, TextOf(last, h.data).value);
      } else {
        NothingAt(b, n - 1, tag);
        if i: nat :| i < n - 1 && Points(b, i, tag, before) && Nothing(b, i + 1, n - 1, tag) {
          NothingMore(b, i + 1, n, tag);
        } else {
          NothingMore(b, 0, n, tag);
        }
      }
    }
  }

  lemma NothingAt(b: seq<Byte>, i: nat, tag: nat)
    requires Complete(b) && i < Big(b, 0) && HeaderAt(b).Some? && i < |HeaderAt(b).value.index|
    requires var h := HeaderAt(b).value; h.index[i].tag != tag || TextOf(h.index[i], h.data).None?
    ensures Nothing(b, i, i + 1, tag)
  {
    hide Points, Complete, HeaderAt, TextOf;
    forall j: nat, text | i <= j < i + 1 ensures !Points(b, j, tag, text) {
      PointsIsText(b, i, tag, text);
    }
  }

  lemma NothingLeft(b: seq<Byte>, n: nat, tag: nat)
    requires Complete(b)
    ensures Nothing(b, n, n, tag)
  {}

  lemma NothingMore(b: seq<Byte>, lo: nat, n: nat, tag: nat)
    requires Complete(b) && n > 0 && Nothing(b, lo, n - 1, tag) && Nothing(b, n - 1, n, tag)
    ensures Nothing(b, lo, n, tag)
  {
    hide Points, Complete;
  }

  lemma OneText(b: seq<Byte>, i: nat, tag: nat, s: seq<Byte>, t: seq<Byte>)
    requires Complete(b) && Points(b, i, tag, s) && Points(b, i, tag, t)
    ensures s == t
  {
    PointsIsText(b, i, tag, s);
    PointsIsText(b, i, tag, t);
  }

  /** Every header says exactly one text for every tag. */
  lemma SaysIs(b: seq<Byte>, tag: nat, text: seq<Byte>)
    requires Complete(b)
    ensures HeaderAt(b).Some?
    ensures Says(b, tag, text) <==> text == LastText(HeaderAt(b).value.index, HeaderAt(b).value.data, tag)
  {
    hide HeaderAt, Points;
    CompleteIsHeader(b);
    var h := HeaderAt(b).value;
    var n := |h.index|;
    var said := LastText(h.index, h.data, tag);
    LastTextIs(b, n, tag);
    assert h.index[..n] == h.index;
    if i: nat, j: nat :| i < n && Points(b, i, tag, text) && Nothing(b, i + 1, n, tag)
                         && j < n && Points(b, j, tag, said) && Nothing(b, j + 1, n, tag) {
      if i == j {
        OneText(b, i, tag, text, said);
      }
    }
  }

  /** What the decoder makes of any bytes at all. If they are complete: the name is what tag 1000 says, and without a
      name there is no package; the version is what tag 1001 says, with a dash and what tag 1002 says behind it if that
      is anything. */
  lemma DecodedFromBytes(b: seq<Byte>, name: seq<Byte>, version: seq<Byte>, release: seq<Byte>)
    requires Complete(b) ==> Says(b, 1000, name) && Says(b, 1001, version) && Says(b, 1002, release)
    ensures PackageAt(b) ==
            if !Complete(b) || name == [] then None
            else Some(Package("rpm", name, if release == [] then version else version + [0x2D] + release))
  {
    hide HeaderAt, LastText, Complete, Says;
    CompleteIsHeader(b);
    if Complete(b) {
      SaysIs(b, 1000, name);
      SaysIs(b, 1001, version);
      SaysIs(b, 1002, release);
    }
  }

  /** The bytes describe the package, with a name and a version put together from what the header says. */
  ghost predicate DescribedBy(b: seq<Byte>, p: Package) {
    && Complete(b) && p.database == "rpm" && p.name != [] && Says(b, 1000, p.name)
    && exists version, release ::
         && Says(b, 1001, version) && Says(b, 1002, release)
         && p.version == if release == [] then version else version + [0x2D] + release
  }

  lemma DescribedIsDecoded(b: seq<Byte>, p: Package)
    ensures DescribedBy(b, p) <==> PackageAt(b) == Some(p)
  {
    hide PackageAt, Says, Complete;
    if Complete(b) {
      var name := SaidBy(b, 1000);
      var version := SaidBy(b, 1001);
      var release := SaidBy(b, 1002);
      DecodedFromBytes(b, name, version, release);
      if DescribedBy(b, p) {
        var v, r :| Says(b, 1001, v) && Says(b, 1002, r)
                    && p.version == if r == [] then v else v + [0x2D] + r;
        SaysOne(b, 1000, p.name, name);
        SaysOne(b, 1001, v, version);
        SaysOne(b, 1002, r, release);
      }
    } else {
      DecodedFromBytes(b, [], [], []);
    }
  }

  /** A header stands at a position of the database and describes the package: its first index entry has tag 63 and
      type 7. */
  ghost predicate Describes(data: seq<Byte>, at: nat, p: Package) {
    at + 16 <= |data| && data[at + 8..at + 16] == [0, 0, 0, 63, 0, 0, 0, 7] && DescribedBy(data[at..], p)
  }

  lemma DescribesIsCandidate(data: seq<Byte>, at: nat, p: Package)
    requires at + 8 <= |data|
    ensures Describes(data, at, p) <==> CandidateAt(data, at + 8) == Some(p)
  {
    hide PackageAt, DescribedBy;
    var i := at + 8;
    if at + 16 <= |data| {
      assert data[i..][..8] == data[at + 8..at + 16];
    }
    DescribedIsDecoded(data[at..], p);
  }

  lemma SaidBy(b: seq<Byte>, tag: nat) returns (text: seq<Byte>)
    requires Complete(b)
    ensures Says(b, tag, text)
  {
    hide Complete, Says;
    CompleteIsHeader(b);
    text := LastText(HeaderAt(b).value.index, HeaderAt(b).value.data, tag);
    SaysIs(b, tag, text);
  }

  lemma SaysOne(b: seq<Byte>, tag: nat, s: seq<Byte>, t: seq<Byte>)
    requires Complete(b) && Says(b, tag, s) && Says(b, tag, t)
    ensures s == t
  {
    hide Complete, Says;
    SaysIs(b, tag, s);
    SaysIs(b, tag, t);
  }

  /** The scan reports a package if and only if a header somewhere in the database describes it. */
  lemma ScannedFromBytes(data: seq<Byte>, p: Package)
    ensures p in PackagesIn(data) <==> exists at: nat :: Describes(data, at, p)
  {
    hide Describes, CandidateAt;
    ScanIsComplete(data, p);
    if i :| 0 <= i <= |data| && CandidateAt(data, i) == Some(p) {
      CandidatesFrom8(data, i);
      DescribesIsCandidate(data, i - 8, p);
    }
    if at: nat :| Describes(data, at, p) {
      DescribesFits(data, at, p);
      DescribesIsCandidate(data, at, p);
    }
  }

  lemma CandidatesFrom8(data: seq<Byte>, i: nat)
    requires i <= |data| && CandidateAt(data, i).Some?
    ensures i >= 8
  {}

  lemma DescribesFits(data: seq<Byte>, at: nat, p: Package)
    requires Describes(data, at, p)
    ensures at + 8 <= |data|
  {}
}
