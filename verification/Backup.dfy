/** The online backup of one database into another while the source keeps changing. */
module OnlineBackup {
  import opened Arith
  import opened PageGeometry
  import opened ByteImage

  datatype Code = OK | BUSY | LOCKED | DONE | READONLY | NOMEM | IOERR | IOERR_NOMEM | CORRUPT | FULL

  /** Everything but OK, BUSY and LOCKED ends a backup; so does its completion. */
  predicate IsFatalError(rc: Code) {
    rc != OK && rc != BUSY && rc != LOCKED
  }

  /** The outcome of opening a transaction, where something may go wrong or not. */
  method BeginTrans(faulty: bool) returns (rc: Code)
    ensures rc != DONE
    ensures !faulty ==> rc == OK
  {
    rc := OK;
    if faulty {
      rc := *;
      if rc == DONE { rc := BUSY; }
    }
  }

  /** The outcome of fetching, writing, committing or syncing pages: failures are fatal. */
  method PagerResult(faulty: bool) returns (rc: Code)
    ensures rc == OK || (IsFatalError(rc) && rc != DONE)
    ensures !faulty ==> rc == OK
  {
    rc := OK;
    if faulty {
      rc := *;
      if rc == DONE || rc == BUSY || rc == LOCKED { rc := IOERR; }
    }
  }

  // ---- arithmetic of pages ----

  lemma PageEnd(pgsz: nat, k: nat)
    requires k >= 1
    ensures k * pgsz == (k - 1) * pgsz + pgsz
  {
  }

  lemma PlaceInPage(pgsz: nat, iOff: nat, n: nat, k: nat)
    requires pgsz > 0 && FitsPage(pgsz, iOff, n) && k == iOff / pgsz + 1
    ensures (k - 1) * pgsz + iOff % pgsz == iOff && iOff + n <= k * pgsz
  {
  }

  lemma AlignedStep(d: nat, lo: nat, hi: nat)
    requires d > 0 && lo % d == 0 && hi % d == 0 && lo < hi
    ensures lo + d <= hi && (lo + d) % d == 0
  {
    var p, q := lo / d, hi / d;
    assert lo == d * p && hi == d * q;
    MulMonotone(d, q, p);
    MulMonotone(d, p + 1, q);
    assert d * (p + 1) == d * p + d;
    QuotientUnique(lo + d, d, p + 1, 0);
  }

  lemma MultipleOfMultiple(s: nat, d: nat, n: nat)
    requires s > 0 && d > 0 && s % d == 0 && n % s == 0
    ensures n % d == 0
  {
    var k, m := s / d, n / s;
    assert s == d * k && n == s * m;
    assert n == d * (k * m) by { assert s * m == d * k * m; }
    QuotientUnique(n, d, k * m, 0);
  }

  /** The chunks a source page is copied in: all of it into one larger destination page, or one
      destination page at a time. */
  ghost predicate AtChunk(g: Geometry, lo: nat, iOff: nat) {
    && g.src > 0 && g.dest > 0 && lo <= iOff
    && (g.src < g.dest ==> iOff == lo || iOff >= lo + g.src)
    && (g.src >= g.dest ==> iOff % g.dest == 0 && iOff <= lo + g.src)
  }

  function ChunkSize(g: Geometry): nat {
    if g.src < g.dest then g.src else g.dest
  }

  lemma ChunkFits(g: Geometry, lo: nat, iOff: nat)
    requires IsGeometry(g) && lo % g.src == 0 && AtChunk(g, lo, iOff) && iOff < lo + g.src
    ensures iOff + ChunkSize(g) <= lo + g.src
    ensures FitsPage(g.dest, iOff, ChunkSize(g))
    ensures AtChunk(g, lo, iOff + g.dest)
  {
    if g.src < g.dest {
      SmallerDivides(g.src, g.dest);
      SmallPageFits(g.src, g.dest, lo);
    } else {
      SmallerDivides(g.dest, g.src);
      QuotientUnique(lo + g.src, g.src, lo / g.src + 1, 0) by {
        assert lo == g.src * (lo / g.src);
        assert g.src * (lo / g.src + 1) == g.src * (lo / g.src) + g.src;
      }
      MultipleOfMultiple(g.src, g.dest, lo + g.src);
      AlignedStep(g.dest, iOff, lo + g.src);
    }
  }

  lemma FirstChunk(g: Geometry, lo: nat)
    requires IsGeometry(g) && lo % g.src == 0
    ensures AtChunk(g, lo, lo)
  {
    if g.src >= g.dest {
      SmallerDivides(g.dest, g.src);
      MultipleOfMultiple(g.src, g.dest, lo);
    }
  }

  lemma ChunkOnLockPage(g: Geometry, dest: seq<Byte>, iOff: nat, zIn: seq<Byte>)
    requires IsGeometry(g) && FitsPage(g.dest, iOff, |zIn|) && InLockPage(g.pending, g.dest, iOff)
    ensures Written(g, dest, dest, iOff, zIn)
  {
    forall o | iOff <= o < iOff + |zIn|
      ensures InLockPage(g.pending, g.dest, o)
    {
      ChunkOnOnePage(g.pending, g.dest, iOff, |zIn|, o);
    }
  }

  ghost predicate SizeFieldIs(dest: seq<Byte>, z: seq<Byte>) {
    |dest| >= 512 && dest[28..32] == z
  }

  /** A chunk beyond the first leaves the size field alone. */
  lemma SizeFieldAfter(
      g: Geometry, d0: seq<Byte>, d1: seq<Byte>, iOff: nat, zIn: seq<Byte>, z: seq<Byte>, bUpdate: bool,
      lastPage: nat)
    requires |z| >= 512 && |zIn| >= 512 && Written(g, d0, d1, iOff, zIn)
    requires if iOff == 0 then
               && |zIn| <= |z| && zIn == z[..|zIn|]
               && SizeFieldIs(d1, if bUpdate then zIn[28..32] else Put4byte(lastPage))
             else iOff >= 512 && SizeFieldIs(d0, if bUpdate then z[28..32] else Put4byte(lastPage))
    ensures SizeFieldIs(d1, if bUpdate then z[28..32] else Put4byte(lastPage))
  {
  }

  /** Between the end of a file of `size` bytes and a page written at offset lo, a byte below
      `end` comes into being without being reported. */
  ghost predicate GapSeen(g: Geometry, size: nat, lo: nat, end: nat) {
    exists o :: size <= o < lo && o < end && Exposed(g, o)
  }

  /** A page is written at offset lo, however far behind the end. */
  function PageWritten(src: seq<Byte>, lo: nat, z: seq<Byte>): (out: seq<Byte>)
    ensures |out| == if lo + |z| <= |src| then |src| else lo + |z|
  {
    Splice(Grow(src, lo + |z|), lo, z)
  }

  /** What a backup makes of a written page: it writes the page again if it lies below `end`. */
  ghost predicate Follows(g: Geometry, d0: seq<Byte>, d1: seq<Byte>, lo: nat, z: seq<Byte>, end: nat) {
    if lo < end then Written(g, d0, d1, lo, z) else d1 == d0
  }

  /** A backup that follows a page write stays in step, unless an unreported byte comes into being
      below what it has copied. */
  lemma FollowedWriteKeepsCopied(
      g: Geometry, src: seq<Byte>, d0: seq<Byte>, d1: seq<Byte>, lo: nat, z: seq<Byte>, end: nat)
    requires Copied(g, src, d0, end) && Follows(g, d0, d1, lo, z, end)
    requires !GapSeen(g, |src|, lo, end)
    ensures Copied(g, PageWritten(src, lo, z), d1, end)
  {
    var src' := PageWritten(src, lo, z);
    forall o | 0 <= o < |src'| && o < end && !(lo <= o < lo + |z|) && Exposed(g, o)
      ensures o < |src| && src'[o] == src[o]
    {
    }
    if lo < end {
      CopiedAfterUpdate(g, src, src', d0, d1, end, lo, z);
    } else {
      CopiedBelowChange(g, src, src', d0, end);
    }
  }

  /** ... and if one does, there is a content of both files for which it falls out of step. */
  lemma GapLosesStep(g: Geometry, size: nat, lo: nat, z: seq<Byte>, end: nat)
    returns (src: seq<Byte>, d0: seq<Byte>, d1: seq<Byte>)
    requires GapSeen(g, size, lo, end)
    ensures |src| == size && Copied(g, src, d0, end) && Follows(g, d0, d1, lo, z, end)
    ensures !Copied(g, PageWritten(src, lo, z), d1, end)
  {
    var o :| size <= o < lo && o < end && Exposed(g, o);
    src := ZeroBytes(size);
    d0 := ZeroBytes(size) + seq(lo + |z| - size, _ => 1);
    d1 := if lo < end then PageWritten(d0, lo, z) else d0;
    assert d1[o] == 1;
    assert !Agrees(PageWritten(src, lo, z), d1, o);
  }

  /** A page inside the database, right behind it, or behind the lock page that ends it, leaves
      no gap. */
  lemma NoGapWithinReach(g: Geometry, nPage: nat, k: nat, end: nat)
    requires g.src > 0 && g.pending % g.src == 0 && k >= 1
    requires k <= nPage + 1 || (k == nPage + 2 && nPage + 1 == PendingPage(g.pending, g.src))
    ensures !GapSeen(g, PageStart(g.src, nPage + 1), PageStart(g.src, k), end)
  {
    if k <= nPage + 1 {
      PageStartMonotone(g.src, k, nPage + 1);
    } else {
      LockPageNumber(g.pending, g.src, nPage + 1);
    }
  }

  class Backup {
    const g: Geometry
    const isUser: bool          // started through the API, not by sqlite3BtreeCopyFile()
    const settings: Settings

    var dest: seq<Byte>         // the destination database
    var journal: seq<Byte>      // its content when the write transaction was opened
    var bDestLocked: bool
    var iDestSchema: nat        // the schema version of the destination when it was locked
    var iNext: nat
    var rc: Code
    var nRemaining: nat
    var nPagecount: nat
    var isAttached: bool

    /** A backup that has copied anything is registered with the source pager and holds the
        destination, unless it is finished or has failed. */
    ghost predicate Ready()
      reads this
    {
      && IsGeometry(g)
      && iNext >= 1
      && (!IsFatalError(rc) && iNext > 1 ==> isAttached && bDestLocked)
      && (bDestLocked ==> iDestSchema == SchemaVersion(journal))
    }

    /** Pages cannot be copied into an in-memory database with another page size. */
    predicate NeedsOtherPageSize() {
      g.src != g.dest && settings.isMemdb
    }

    /** Everything below iNext is in the destination. */
    ghost predicate InStep(image: seq<Byte>)
      requires iNext >= 1
      reads this
    {
      !IsFatalError(rc) ==> Copied(g, image, dest, PageStart(g.src, iNext))
    }

    /** What the destination goes back to if its transaction is rolled back. */
    function Original(): seq<Byte>
      reads this
    {
      if bDestLocked then journal else dest
    }

    constructor (g: Geometry, isUser: bool, settings: Settings, dest: seq<Byte>)
      requires IsGeometry(g)
      ensures Ready() && !isAttached && rc == OK && !bDestLocked && iNext == 1
      ensures this.g == g && this.isUser == isUser && this.settings == settings && this.dest == dest
    {
      this.g, this.isUser, this.settings := g, isUser, settings;
      this.dest, journal, bDestLocked, iDestSchema := dest, [], false, 0;
      iNext, rc, nRemaining, nPagecount, isAttached := 1, OK, 0, 0, false;
    }

    /** Write into one destination page, which ends at offset pageEnd. */
    method WriteDest(pageEnd: nat, off: nat, zIn: seq<Byte>, bUpdate: bool, lastPage: nat)
      requires off + |zIn| <= pageEnd && |zIn| >= 512
      modifies this`dest
      ensures Written(g, old(dest), dest, off, zIn)
      ensures off == 0 ==> SizeFieldIs(dest, if bUpdate then zIn[28..32] else Put4byte(lastPage))
    {
      dest := Splice(Grow(dest, pageEnd), off, zIn);
      if off == 0 && !bUpdate {
        dest := Splice(dest, 28, Put4byte(lastPage));
      }
    }

    /** The destination page that offset iOff is on, where that page ends, and where in the
        file the byte at iOff goes. */
    method Locate(iOff: nat, n: nat) returns (isLockPage: bool, pageEnd: nat, off: nat)
      requires IsGeometry(g) && FitsPage(g.dest, iOff, n)
      ensures isLockPage <==> InLockPage(g.pending, g.dest, iOff)
      ensures off == iOff && off + n <= pageEnd
    {
      var iDest := iOff / g.dest + 1;
      isLockPage := iDest == PendingPage(g.pending, g.dest);
      LockPageOffsets(g.pending, g.dest, iOff);
      pageEnd, off := iDest * g.dest, (iDest - 1) * g.dest + iOff % g.dest;
      PlaceInPage(g.dest, iOff, n, iDest);
    }

    /** Copy the part of a source page that goes into one destination page. */
    method CopyChunk(iOff: nat, zIn: seq<Byte>, bUpdate: bool, lastPage: nat, faulty: bool) returns (code: Code)
      requires IsGeometry(g) && FitsPage(g.dest, iOff, |zIn|) && |zIn| >= 512
      modifies this`dest
      ensures code == OK || (IsFatalError(code) && code != DONE)
      ensures !faulty ==> code == OK
      ensures code == OK ==> Written(g, old(dest), dest, iOff, zIn)
      ensures code == OK && iOff == 0 ==> SizeFieldIs(dest, if bUpdate then zIn[28..32] else Put4byte(lastPage))
    {
      var isLockPage, pageEnd, off := Locate(iOff, |zIn|);
      if isLockPage {
        ChunkOnLockPage(g, dest, iOff, zIn);
        return OK;
      }
      code := PagerResult(faulty);
      if code == OK {
        WriteDest(pageEnd, off, zIn, bUpdate, lastPage);
      }
    }

    /** Copy one source page into the destination. */
    method BackupOnePage(iSrcPg: nat, zSrcData: seq<Byte>, bUpdate: bool, lastPage: nat, faulty: bool)
      returns (code: Code)
      requires IsGeometry(g) && iSrcPg >= 1 && |zSrcData| == g.src
      requires bDestLocked && !IsFatalError(rc) && iSrcPg != PendingPage(g.pending, g.src)
      modifies this`dest
      ensures code == OK || (IsFatalError(code) && code != DONE)
      ensures NeedsOtherPageSize() ==> code == READONLY && dest == old(dest)
      ensures !NeedsOtherPageSize() && !faulty ==> code == OK
      ensures code == OK ==> Written(g, old(dest), dest, PageStart(g.src, iSrcPg), zSrcData)
      ensures code == OK && iSrcPg == 1 ==> SizeFieldIs(dest, if bUpdate then zSrcData[28..32] else Put4byte(lastPage))
    {
      code := OK;
      if g.src != g.dest && settings.isMemdb { return READONLY; }
      var iEnd := iSrcPg * g.src;
      PageStartIsProduct(g.src, iSrcPg);
      PageEnd(g.src, iSrcPg);
      LockPageNumber(g.pending, g.src, iSrcPg);
      code := CopyChunks(iEnd - g.src, zSrcData, bUpdate, lastPage, faulty);
    }

    /** The first `done` bytes of a source page are in the destination. */
    ghost predicate PartWritten(d0: seq<Byte>, lo: nat, z: seq<Byte>, done: nat, sizeField: seq<Byte>)
      reads this`dest
    {
      && done <= |z| && (done == 0 || done >= 512)
      && Written(g, d0, dest, lo, z[..done])
      && (lo == 0 && done > 0 ==> SizeFieldIs(dest, sizeField))
    }

    /** One pass for each destination page that the source page at offset lo spans. */
    method CopyChunks(lo: nat, zSrcData: seq<Byte>, bUpdate: bool, lastPage: nat, faulty: bool) returns (code: Code)
      requires IsGeometry(g) && lo % g.src == 0 && |zSrcData| == g.src
      requires lo != g.pending
      modifies this`dest
      ensures code == OK || (IsFatalError(code) && code != DONE)
      ensures !faulty ==> code == OK
      ensures code == OK ==> Written(g, old(dest), dest, lo, zSrcData)
      ensures code == OK && lo == 0 ==> SizeFieldIs(dest, if bUpdate then zSrcData[28..32] else Put4byte(lastPage))
    {
      code := OK;
      var iOff := lo;
      FirstChunk(g, lo);
      WrittenNothing(g, dest, lo);
      ghost var done, sizeField := 0, if bUpdate then zSrcData[28..32] else Put4byte(lastPage);
      while code == OK && iOff < lo + g.src
        invariant AtChunk(g, lo, iOff)
        invariant code == OK || (IsFatalError(code) && code != DONE)
        invariant !faulty ==> code == OK
        invariant code == OK ==> done == iOff - lo || (done == g.src && iOff >= lo + g.src)
        invariant code == OK ==> PartWritten(old(dest), lo, zSrcData, done, sizeField)
        decreases lo + g.src - iOff
      {
        ChunkFits(g, lo, iOff);
        code := CopyOneChunk(lo, iOff, zSrcData, bUpdate, lastPage, faulty, old(dest));
        done := done + ChunkSize(g);
        iOff := iOff + g.dest;
      }
      assert code == OK ==> zSrcData[..done] == zSrcData;
    }

    /** The chunk that starts at iOff. */
    method CopyOneChunk(
        lo: nat, iOff: nat, zSrcData: seq<Byte>, bUpdate: bool, lastPage: nat, faulty: bool, ghost d0: seq<Byte>)
      returns (code: Code)
      requires IsGeometry(g) && |zSrcData| == g.src && lo <= iOff
      requires iOff + ChunkSize(g) <= lo + g.src && FitsPage(g.dest, iOff, ChunkSize(g))
      requires PartWritten(d0, lo, zSrcData, iOff - lo, if bUpdate then zSrcData[28..32] else Put4byte(lastPage))
      modifies this`dest
      ensures code == OK || (IsFatalError(code) && code != DONE)
      ensures !faulty ==> code == OK
      ensures code == OK ==>
                PartWritten(d0, lo, zSrcData, iOff - lo + ChunkSize(g),
                            if bUpdate then zSrcData[28..32] else Put4byte(lastPage))
    {
      var nCopy := ChunkSize(g);
      ghost var done, d1 := iOff - lo, dest;
      var zIn := zSrcData[iOff - lo..iOff - lo + nCopy];
      code := CopyChunk(iOff, zIn, bUpdate, lastPage, faulty);
      if code == OK {
        WrittenThen(g, d0, d1, dest, lo, zSrcData[..done], zIn);
        assert zSrcData[..done] + zIn == zSrcData[..done + nCopy];
        if lo == 0 {
          SizeFieldAfter(g, d1, dest, iOff, zIn, zSrcData, bUpdate, lastPage);
        }
      }
    }

    /** Page iPage of the source has been given new content: copy it again if it has been copied. */
    method Update(iPage: nat, aData: seq<Byte>, lastPage: nat, faulty: bool)
      requires Ready() && iPage >= 1 && |aData| == g.src && iPage != PendingPage(g.pending, g.src)
      modifies this`dest, this`rc
      ensures Ready() && Original() == old(Original())
      ensures IsFatalError(old(rc)) ==> rc == old(rc) && dest == old(dest)
      ensures rc == DONE ==> old(rc) == DONE
      ensures !faulty && !NeedsOtherPageSize() ==> rc == old(rc)
      ensures IsFatalError(rc) || Follows(g, old(dest), dest, PageStart(g.src, iPage), aData, PageStart(g.src, iNext))
    {
      PageStartMonotone(g.src, if iPage < iNext then iPage else iNext, if iPage < iNext then iNext else iPage);
      if !IsFatalError(rc) && iPage < iNext {
        var code := BackupOnePage(iPage, aData, true, lastPage, faulty);
        if code != OK { rc := code; }
      }
    }
  }

  /** The pager of the source database and the list of backups registered with it. */
  class SourcePager {
    const pending: nat
    const pgsz: nat
    var nPage: nat              // the size of the database in pages
    var image: seq<Byte>        // the database as this pager sees it
    var inWrite: bool           // a write transaction is open
    var backups: seq<Backup>

    ghost predicate Shape()
      reads this`nPage, this`image
    {
      && IsPow2(pgsz) && pgsz >= 512 && pending > 0 && pending % pgsz == 0
      && |image| == PageStart(pgsz, nPage + 1)
    }

    ghost predicate Registered(b: Backup)
      reads b
    {
      b.g.src == pgsz && b.g.pending == pending && b.isAttached && b.Ready()
    }

    /** A change of the source ends no backup, and does not touch one that has ended. */
    twostate predicate Spared(b: Backup)
      reads b
    {
      && b.Original() == old(b.Original())
      && (IsFatalError(old(b.rc)) ==> b.rc == old(b.rc) && b.dest == old(b.dest))
      && (b.rc == DONE ==> old(b.rc) == DONE)
    }

    /** If nothing goes wrong, no backup fails. */
    twostate predicate Unharmed(b: Backup, faulty: bool)
      reads b
    {
      !faulty && !b.NeedsOtherPageSize() ==> b.rc == old(b.rc)
    }

    /** The page write at offset lo lets an unreported byte come into being below what b has copied. */
    ghost predicate Missed(b: Backup, size: nat, lo: nat)
      reads b
    {
      GapSeen(b.g, size, lo, PageStart(pgsz, b.iNext))
    }

    /** What is left of a registered backup after a page at offset lo of a source with `size` bytes
        has been written: it stays in step, unless it misses something in front of the page. */
    twostate predicate Told(b: Backup, size: nat, lo: nat, img: seq<Byte>, faulty: bool)
      reads b
    {
      Registered(b) && Spared(b) && Unharmed(b, faulty) && (!old(Missed(b, size, lo)) ==> Tracks(b, img))
    }

    /** Backup b is registered here, and every page below its iNext is in its destination. */
    ghost predicate Tracks(b: Backup, img: seq<Byte>)
      reads b
    {
      Registered(b) && b.InStep(img)
    }

    ghost predicate Distinct()
      reads this`backups
    {
      forall k, l | 0 <= k < l < |backups| :: backups[k] != backups[l]
    }

    ghost predicate Valid()
      reads this, backups
    {
      && Shape() && Distinct()
      && (forall k | 0 <= k < |backups| :: Tracks(backups[k], image))
    }

    constructor (pending: nat, pgsz: nat, nPage: nat, image: seq<Byte>)
      requires IsPow2(pgsz) && pgsz >= 512 && pending > 0 && pending % pgsz == 0
      requires |image| == PageStart(pgsz, nPage + 1)
      ensures Valid() && backups == [] && this.image == image && this.pending == pending && this.pgsz == pgsz
    {
      this.pending, this.pgsz, this.nPage, this.image, inWrite, backups := pending, pgsz, nPage, image, false, [];
    }

    /** A page of the source is written and the change is reported to every registered backup.
        Those that miss nothing in front of the page stay in step. */
    method WritePage(iPg: nat, data: seq<Byte>, faulty: bool)
      requires Valid() && iPg >= 1 && |data| == pgsz && iPg != PendingPage(pending, pgsz)
      modifies this`image, this`nPage, backups
      ensures Shape() && Distinct() && nPage == if iPg > old(nPage) then iPg else old(nPage)
      ensures image == PageWritten(old(image), PageStart(pgsz, iPg), data)
      ensures forall k | 0 <= k < |backups| ::
                Told(backups[k], old(|image|), PageStart(pgsz, iPg), image, faulty)
    {
      ghost var before := image;
      PageStartIsProduct(pgsz, iPg);
      PageStartMonotone(pgsz, if iPg <= nPage then iPg + 1 else nPage + 1, if iPg <= nPage then nPage + 1 else iPg + 1);
      var lo := (iPg - 1) * pgsz;
      image := PageWritten(image, lo, data);
      if iPg > nPage { nPage := iPg; }
      BackupUpdate(iPg, data, faulty, before);
    }

    /** Tell every registered backup that page iPg now holds aData. */
    method BackupUpdate(iPg: nat, aData: seq<Byte>, faulty: bool, ghost before: seq<Byte>)
      requires Shape() && Distinct() && iPg >= 1 && iPg != PendingPage(pending, pgsz) && |aData| == pgsz
      requires forall k | 0 <= k < |backups| :: Tracks(backups[k], before)
      requires image == PageWritten(before, PageStart(pgsz, iPg), aData)
      modifies backups
      ensures forall k | 0 <= k < |backups| ::
                Told(backups[k], |before|, PageStart(pgsz, iPg), image, faulty)
    {
      var i := 0;
      while i < |backups|
        invariant 0 <= i <= |backups|
        invariant forall k | 0 <= k < i :: Told(backups[k], |before|, PageStart(pgsz, iPg), image, faulty)
        invariant forall k | i <= k < |backups| :: Tracks(backups[k], before) && unchanged(backups[k])
      {
        UpdateOne(backups[i], iPg, aData, faulty, before);
        i := i + 1;
      }
    }

    method UpdateOne(b: Backup, iPg: nat, aData: seq<Byte>, faulty: bool, ghost before: seq<Byte>)
      requires pgsz > 0 && iPg >= 1 && iPg != PendingPage(pending, pgsz) && |aData| == pgsz
      requires image == PageWritten(before, PageStart(pgsz, iPg), aData) && Tracks(b, before)
      modifies b
      ensures Told(b, |before|, PageStart(pgsz, iPg), image, faulty)
    {
      ghost var d0, lo, end := b.dest, PageStart(pgsz, iPg), PageStart(pgsz, b.iNext);
      b.Update(iPg, aData, nPage, faulty);
      if !IsFatalError(b.rc) && !GapSeen(b.g, |before|, lo, end) {
        FollowedWriteKeepsCopied(b.g, before, d0, b.dest, lo, aData, end);
      }
    }

    /** The source gets shorter.  This is not reported: a step finds out by itself. */
    method TruncateTo(n: nat)
      requires Valid() && n <= nPage
      modifies this`image, this`nPage
      ensures Valid() && nPage == n && image == Truncate(old(image), PageStart(pgsz, n + 1))
    {
      PageStartMonotone(pgsz, n + 1, nPage + 1);
      PageStartIsProduct(pgsz, n + 1);
      ghost var before := image;
      image := Truncate(image, n * pgsz);
      nPage := n;
      forall k | 0 <= k < |backups|
        ensures Tracks(backups[k], image)
      {
        var b := backups[k];
        if !IsFatalError(b.rc) {
          CopiedBelowChange(b.g, before, image, b.dest, PageStart(pgsz, b.iNext));
        }
      }
    }

    /** Another connection has changed the database: every registered backup starts again. */
    method ExternalChange(newPages: nat, newImage: seq<Byte>)
      requires Valid() && |newImage| == PageStart(pgsz, newPages + 1)
      modifies this`image, this`nPage, backups
      ensures Valid() && image == newImage && nPage == newPages
      ensures forall k | 0 <= k < |backups| :: Restarted(backups[k])
    {
      image, nPage := newImage, newPages;
      BackupRestart();
    }

    /** Nothing but the position of the backup changes. */
    twostate predicate Restarted(b: Backup)
      reads b
    {
      b.iNext == 1 && b.rc == old(b.rc) && b.dest == old(b.dest) && Spared(b)
    }

    method RestartOne(b: Backup)
      requires Registered(b)
      modifies b`iNext
      ensures Tracks(b, image) && Restarted(b)
    {
      b.iNext := 1;
    }

    method BackupRestart()
      requires Shape() && Distinct()
      requires forall k | 0 <= k < |backups| :: Registered(backups[k])
      modifies backups
      ensures Valid()
      ensures forall k | 0 <= k < |backups| :: Restarted(backups[k])
    {
      var i := 0;
      while i < |backups|
        invariant 0 <= i <= |backups|
        invariant forall k | 0 <= k < i :: Tracks(backups[k], image) && Restarted(backups[k])
        invariant forall k | i <= k < |backups| :: Registered(backups[k]) && unchanged(backups[k])
      {
        RestartOne(backups[i]);
        i := i + 1;
      }
    }
  }
}
