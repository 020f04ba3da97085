/** Database files as sequences of bytes. */
module ByteImage {
  import opened Common
  import opened PageGeometry

  type Byte = b: nat | b < 256

  /** The image extended with zeros to at least n bytes. */
  function Grow(img: seq<Byte>, n: nat): (out: seq<Byte>)
    ensures |out| == if n <= |img| then |img| else n
    ensures forall o | 0 <= o < |img| :: out[o] == img[o]
  {
    if n <= |img| then img else img + seq(n - |img|, _ => 0)
  }

  /** memcpy(): data written over the image at an offset. */
  function Splice(img: seq<Byte>, off: nat, data: seq<Byte>): (out: seq<Byte>)
    requires off + |data| <= |img|
    ensures |out| == |img|
    ensures forall o | 0 <= o < |img| :: out[o] == if off <= o < off + |data| then data[o - off] else img[o]
  {
    img[..off] + data + img[off + |data|..]
  }

  /** At most n bytes of the image. */
  function Truncate(img: seq<Byte>, n: nat): (out: seq<Byte>)
    ensures |out| == if n <= |img| then n else |img|
    ensures forall o | 0 <= o < |out| :: out[o] == img[o]
  {
    if n <= |img| then img[..n] else img
  }

  /** Four bytes, most significant first. */
  function Put4byte(v: nat): (z: seq<Byte>)
    ensures |z| == 4
  {
    [(v / 0x100_0000) % 256, (v / 0x1_0000) % 256, (v / 0x100) % 256, v % 256]
  }

  /** The number that four bytes hold. */
  function Get4byte(z: seq<Byte>): nat
    requires |z| == 4
  {
    (((z[0] as nat) * 256 + z[1]) * 256 + z[2]) * 256 + z[3]
  }

  lemma PutGet(v: nat)
    requires v < TWO32
    ensures Get4byte(Put4byte(v)) == v
  {
    var a := v / 256;
    var b := a / 256;
    assert v == 256 * a + v % 256 && a == 256 * b + a % 256 && b == 256 * (b / 256) + b % 256;
    assert b == v / 0x1_0000 && b / 256 == v / 0x100_0000 < 256;
  }

  /** The in-header database size. */
  predicate InSizeField(o: nat) {
    28 <= o < 32
  }

  /** Header fields that any commit rewrites: the change counter, the size, and the version that
      last wrote the file. */
  predicate InCommitField(o: nat) {
    24 <= o < 32 || 92 <= o < 100
  }

  /** Header fields that completing a backup rewrites: also the format versions and the schema
      version. */
  predicate InRewrittenField(o: nat) {
    InCommitField(o) || 18 <= o < 20 || 40 <= o < 44
  }

  /** What a commit leaves: new values in the rewritten header fields, everything else as it was. */
  function Stamped(img: seq<Byte>, header: seq<Byte>): (out: seq<Byte>)
    ensures |out| == |img|
    ensures forall o | 0 <= o < |img| && !InCommitField(o) :: out[o] == img[o]
  {
    seq(|img|, o requires 0 <= o < |img| => if InCommitField(o) && o < |header| then header[o] else img[o])
  }

  /** The schema version in the header; an empty database has version 0. */
  function SchemaVersion(img: seq<Byte>): nat {
    if |img| < 44 then 0 else Get4byte(img[40..44])
  }

  /** The two databases differ in rewritten header fields only. */
  ghost predicate OnlyHeaderChanged(img: seq<Byte>, out: seq<Byte>) {
    |out| == |img| && forall o | 0 <= o < |img| && !InRewrittenField(o) :: out[o] == img[o]
  }

  /** The header as a completed backup leaves it: a new schema version, and the format versions of
      a write-ahead log if the database uses one. */
  function Reheaded(img: seq<Byte>, header: seq<Byte>, isWal: bool, schema: nat): (out: seq<Byte>)
    requires |img| >= 100 && schema < TWO32
    ensures OnlyHeaderChanged(img, out)
    ensures SchemaVersion(out) == schema
    ensures out[18..20] == if isWal then [2, 2] else img[18..20]
  {
    PutGet(schema);
    var a := Splice(Stamped(img, header), 40, Put4byte(schema));
    var out := if isWal then Splice(a, 18, [2, 2]) else a;
    assert out[40..44] == Put4byte(schema);
    out
  }

  // ---- agreement between source and destination ----

  /** Between d0 and d1 the bytes z were written at offset lo, except on the destination's lock
      page and except that the size field may differ; nothing else changed. */
  ghost predicate Written(g: Geometry, d0: seq<Byte>, d1: seq<Byte>, lo: nat, z: seq<Byte>) {
    && |d0| <= |d1|
    && (forall o | 0 <= o < |d0| && !(lo <= o < lo + |z|) :: d1[o] == d0[o])
    && (forall o | lo <= o < lo + |z| && !InLockPage(g.pending, g.dest, o) && !InSizeField(o) ::
          o < |d1| && d1[o] == z[o - lo])
  }

  lemma WrittenNothing(g: Geometry, d: seq<Byte>, lo: nat)
    ensures Written(g, d, d, lo, [])
  {
  }

  lemma WrittenThen(g: Geometry, d0: seq<Byte>, d1: seq<Byte>, d2: seq<Byte>, lo: nat, y: seq<Byte>, z: seq<Byte>)
    requires Written(g, d0, d1, lo, y) && Written(g, d1, d2, lo + |y|, z)
    ensures Written(g, d0, d2, lo, y + z)
  {
  }

  /** The destination holds the source's byte at offset o. */
  ghost predicate Agrees(src: seq<Byte>, dest: seq<Byte>, o: nat)
    requires o < |src|
  {
    o < |dest| && dest[o] == src[o]
  }

  /** Page-wise copying has to carry over the byte at offset o: it is on neither lock page and not
      in the size field. */
  predicate Exposed(g: Geometry, o: nat) {
    !InLockPage(g.pending, g.src, o) && !InLockPage(g.pending, g.dest, o) && !InSizeField(o)
  }

  /** The destination holds the first `end` bytes of the source, except on either lock page and
      in the size field. */
  ghost predicate Copied(g: Geometry, src: seq<Byte>, dest: seq<Byte>, end: nat) {
    forall o | 0 <= o < end && o < |src| && Exposed(g, o) :: Agrees(src, dest, o)
  }

  /** The destination holds the whole source, except on the source's lock page and in the header
      fields that a commit rewrites. */
  ghost predicate FullyCopied(g: Geometry, src: seq<Byte>, dest: seq<Byte>) {
    && |dest| <= |src|
    && forall o | 0 <= o < |src| && !InLockPage(g.pending, g.src, o) && !InRewrittenField(o) :: Agrees(src, dest, o)
  }

  /** Unless the source ends with its lock page, the two files have the same size. */
  lemma FullyCopiedSameSize(g: Geometry, src: seq<Byte>, dest: seq<Byte>)
    requires FullyCopied(g, src, dest) && |src| >= 512
    requires !InLockPage(g.pending, g.src, |src| - 1)
    ensures |dest| == |src|
  {
  }

  /** Copying the next page extends the copied part. */
  lemma CopiedNextPage(g: Geometry, src: seq<Byte>, d0: seq<Byte>, d1: seq<Byte>, lo: nat, z: seq<Byte>)
    requires Copied(g, src, d0, lo)
    requires lo + |z| <= |src| && z == src[lo..lo + |z|]
    requires Written(g, d0, d1, lo, z)
    ensures Copied(g, src, d1, lo + |z|)
  {
  }

  /** A page that changes in the source and is written again stays copied. */
  lemma CopiedAfterUpdate(
      g: Geometry, src: seq<Byte>, src': seq<Byte>, d0: seq<Byte>, d1: seq<Byte>, end: nat, lo: nat, z: seq<Byte>)
    requires Copied(g, src, d0, end) && Written(g, d0, d1, lo, z)
    requires lo + |z| <= |src'| && z == src'[lo..lo + |z|]
    requires forall o | 0 <= o < |src'| && o < end && !(lo <= o < lo + |z|) && Exposed(g, o) ::
               o < |src| && src'[o] == src[o]
    ensures Copied(g, src', d1, end)
  {
    forall o | 0 <= o < end && o < |src'| && Exposed(g, o)
      ensures Agrees(src', d1, o)
    {
      if !(lo <= o < lo + |z|) { assert Agrees(src, d0, o); }
    }
  }

  /** A page beyond the copied part may change freely. */
  lemma CopiedBelowChange(g: Geometry, src: seq<Byte>, src': seq<Byte>, d: seq<Byte>, end: nat)
    requires Copied(g, src, d, end)
    requires forall o | 0 <= o < |src'| && o < end && Exposed(g, o) :: o < |src| && src'[o] == src[o]
    ensures Copied(g, src', d, end)
  {
    forall o | 0 <= o < end && o < |src'| && Exposed(g, o)
      ensures Agrees(src', d, o)
    {
      assert Agrees(src, d, o);
    }
  }

  // ---- a new database ----

  /** How the destination is set up. */
  datatype Settings = Settings(isMemdb: bool, isWal: bool, nReserve: Byte, autoVacuum: bool, incrVacuum: bool)

  const MAGIC_HEADER: seq<Byte> := [83, 81, 76, 105, 116, 101, 32, 102, 111, 114, 109, 97, 116, 32, 51, 0]

  function Flag(b: bool): Byte {
    if b then 1 else 0
  }

  function ZeroBytes(n: nat): (z: seq<Byte>)
    ensures |z| == n
  {
    seq(n, _ => 0)
  }

  /** The file header of a new database of one page, and the header of its empty root page. */
  function NewHeader(pgsz: nat, s: Settings): (h: seq<Byte>)
    requires s.nReserve <= pgsz
    ensures |h| == 108
  {
    var usable := pgsz - s.nReserve;
    MAGIC_HEADER
    + [pgsz / 0x100 % 256, pgsz / 0x1_0000 % 256, 1, 1, s.nReserve, 64, 32, 32]
    + ZeroBytes(7) + [1]
    + ZeroBytes(23) + [Flag(s.autoVacuum)]
    + ZeroBytes(11) + [Flag(s.incrVacuum)]
    + ZeroBytes(32)
    + [13, 0, 0, 0, 0, usable / 0x100 % 256, usable % 256, 0]
  }

  /** The header is read back as what it was made from: the page size, which must be a multiple of
      256 up to 65536, the unused bytes of each page, one page, the vacuum settings, and an empty
      root page whose content area starts at its end. */
  lemma NewHeaderReadsBack(pgsz: nat, s: Settings)
    requires 512 <= pgsz <= 0x1_0000 && pgsz % 256 == 0
    ensures var h := NewHeader(pgsz, s);
            && (h[16] as nat) * 0x100 + (h[17] as nat) * 0x1_0000 == pgsz && h[20] == s.nReserve
            && Get4byte([h[28], h[29], h[30], h[31]]) == 1
            && Get4byte([h[52], h[53], h[54], h[55]]) == Flag(s.autoVacuum)
            && Get4byte([h[64], h[65], h[66], h[67]]) == Flag(s.incrVacuum)
    ensures var h := NewHeader(pgsz, s);
            && h[100] == 13 && (h[103] as nat) * 0x100 + h[104] == 0
            && var start := (h[105] as nat) * 0x100 + h[106];
               (if start == 0 then 0x1_0000 else start) == pgsz - s.nReserve
  {
    FileHeaderAt(pgsz, s);
    TwoBytes(pgsz);
    TwoBytes(pgsz - s.nReserve);
  }

  lemma FileHeaderAt(pgsz: nat, s: Settings)
    requires s.nReserve <= pgsz
    ensures var h := NewHeader(pgsz, s);
            && h[16] == pgsz / 0x100 % 256 && h[17] == pgsz / 0x1_0000 % 256 && h[20] == s.nReserve
            && h[28] == h[29] == h[30] == 0 && h[31] == 1
            && h[52] == h[53] == h[54] == 0 && h[55] == Flag(s.autoVacuum)
            && h[64] == h[65] == h[66] == 0 && h[67] == Flag(s.incrVacuum)
  {
  }

  lemma TwoBytes(n: nat)
    requires n <= 0x1_0000
    ensures n / 0x100 % 256 * 0x100 + n % 256 == if n == 0x1_0000 then 0 else n
    ensures n / 0x1_0000 % 256 == if n == 0x1_0000 then 1 else 0
  {
  }

  /** The image whose first page has been made that of a new database. */
  function NewDatabase(img: seq<Byte>, pgsz: nat, s: Settings): (out: seq<Byte>)
    requires pgsz >= 512
    ensures |out| >= pgsz && out[..108] == NewHeader(pgsz, s)
  {
    Splice(Grow(img, pgsz), 0, NewHeader(pgsz, s))
  }

  /** The file is a new database, cut to one page of the source, except in the header fields that
      a commit rewrites. */
  ghost predicate IsNewDatabase(g: Geometry, s: Settings, dest: seq<Byte>)
    requires g.dest >= 512
  {
    && 108 <= |dest| <= g.src
    && forall o | 0 <= o < 108 && !InRewrittenField(o) :: dest[o] == NewHeader(g.dest, s)[o]
  }

  /** What a finished backup leaves: the whole source, or a new database if the source is empty. */
  ghost predicate Completed(g: Geometry, s: Settings, src: seq<Byte>, dest: seq<Byte>)
    requires g.dest >= 512
  {
    if src == [] then IsNewDatabase(g, s, dest) else FullyCopied(g, src, dest)
  }

  /** The versions in the header of a finished backup: the schema version is another one than the
      destination had, and the format versions are those of the source, or of a write-ahead log. */
  ghost predicate Versioned(s: Settings, original: seq<Byte>, src: seq<Byte>, dest: seq<Byte>) {
    && |dest| >= 44 && SchemaVersion(dest) == (SchemaVersion(original) + 1) % TWO32
    && (s.isWal ==> dest[18..20] == [2, 2])
    && (!s.isWal && src == [] ==> dest[18..20] == [1, 1])
    && (!s.isWal && |src| >= 20 ==> dest[18..20] == src[18..20])
  }

  /** A connection that remembers the schema version notices the change. */
  lemma SchemaVersionChanges(s: Settings, original: seq<Byte>, src: seq<Byte>, dest: seq<Byte>)
    requires Versioned(s, original, src, dest)
    ensures SchemaVersion(dest) != SchemaVersion(original)
  {
  }

  /** The headers survive what leaves their bytes alone. */
  lemma HeaderKept(s: Settings, original: seq<Byte>, src: seq<Byte>, dest: seq<Byte>, dest': seq<Byte>)
    requires Versioned(s, original, src, dest) && |dest'| >= 44
    requires forall o | 0 <= o < 44 :: dest'[o] == dest[o]
    ensures Versioned(s, original, src, dest')
  {
    assert dest'[40..44] == dest[40..44] && dest'[18..20] == dest[18..20];
  }
}
