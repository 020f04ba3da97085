/** sqlite3_backup_step(), sqlite3_backup_finish() and the whole-file copy built from them. */
module BackupSteps {
  import opened Arith
  import opened Common
  import opened PageGeometry
  import opened ByteImage
  import opened OnlineBackup

  /** The backup belongs to this source and is on its list exactly when it says so. */
  ghost predicate BelongsTo(p: Backup, src: SourcePager)
    reads p, src
  {
    && p.g.src == src.pgsz && p.g.pending == src.pending
    && (p.isAttached <==> p in src.backups)
  }

  /** State in which a step may be taken. */
  ghost predicate Connected(p: Backup, src: SourcePager)
    reads p, src, src.backups
  {
    src.Valid() && p.Ready() && p.InStep(src.image) && BelongsTo(p, src)
  }

  /** Skipping the lock page extends the copied part. */
  lemma CopiedSkippingLock(g: Geometry, src: seq<Byte>, dest: seq<Byte>, k: nat)
    requires IsGeometry(g) && k >= 1 && k == PendingPage(g.pending, g.src)
    requires Copied(g, src, dest, PageStart(g.src, k))
    ensures Copied(g, src, dest, PageStart(g.src, k + 1))
  {
    LockPageNumber(g.pending, g.src, k);
  }

  /** Page k of an image. */
  function PageOf(image: seq<Byte>, pgsz: nat, nPage: nat, k: nat): (z: seq<Byte>)
    requires pgsz > 0 && |image| == PageStart(pgsz, nPage + 1) && 1 <= k <= nPage
    ensures |z| == pgsz && PageStart(pgsz, k) + pgsz <= |image|
    ensures z == image[PageStart(pgsz, k)..PageStart(pgsz, k) + pgsz]
  {
    PageStartMonotone(pgsz, k, nPage + 1);
    image[PageStart(pgsz, k)..PageStart(pgsz, k) + pgsz]
  }

  /** Open what is not open yet: a write transaction on the destination, a read transaction on
      the source.  A source that is being written is busy, and a destination with a write-ahead log
      cannot take pages of another size. */
  method OpenTransactions(p: Backup, src: SourcePager, faulty: bool) returns (rc: Code)
    requires Connected(p, src) && !IsFatalError(p.rc)
    modifies p`bDestLocked, p`journal, p`iDestSchema
    ensures rc != DONE && p.Ready()
    ensures p.isUser && src.inWrite ==> rc == BUSY && unchanged(p)
    ensures p.settings.isWal && p.g.src != p.g.dest ==> rc != OK
    ensures !faulty && !(p.isUser && src.inWrite) ==>
              rc == if p.settings.isWal && p.g.src != p.g.dest then READONLY else OK
    ensures rc == OK ==> p.bDestLocked
    ensures old(p.bDestLocked) ==> p.bDestLocked && p.journal == old(p.journal)
    ensures p.bDestLocked && !old(p.bDestLocked) ==> p.journal == p.dest
  {
    rc := if p.isUser && src.inWrite then BUSY else OK;
    if rc == OK && !p.bDestLocked {
      rc := BeginTrans(faulty);
      if rc == OK {
        p.bDestLocked := true;
        p.journal := p.dest;
        p.iDestSchema := SchemaVersion(p.dest);
      }
    }
    if rc == OK {
      rc := BeginTrans(faulty);
    }
    if rc == OK && p.settings.isWal && p.g.src != p.g.dest {
      rc := READONLY;
    }
  }

  /** Copy the page iNext, unless it is the lock page, and move on. */
  method CopyNextPage(p: Backup, src: SourcePager, faulty: bool) returns (rc: Code)
    requires src.Shape() && IsGeometry(p.g) && p.g.src == src.pgsz && p.g.pending == src.pending
    requires !IsFatalError(p.rc) && p.bDestLocked && 1 <= p.iNext <= src.nPage
    requires Copied(p.g, src.image, p.dest, PageStart(p.g.src, p.iNext))
    modifies p`dest, p`iNext
    ensures p.iNext == old(p.iNext) + 1
    ensures rc == OK || (IsFatalError(rc) && rc != DONE)
    ensures rc == OK ==> Copied(p.g, src.image, p.dest, PageStart(p.g.src, p.iNext))
    ensures old(p.iNext) == PendingPage(src.pending, src.pgsz) ==> rc == OK
    ensures !faulty && !p.NeedsOtherPageSize() ==> rc == OK
    ensures p.NeedsOtherPageSize() ==> p.dest == old(p.dest)
    ensures p.NeedsOtherPageSize() && old(p.iNext) != PendingPage(src.pending, src.pgsz) ==>
              rc != OK && (!faulty ==> rc == READONLY)
  {
    rc := OK;
    var iSrcPg := p.iNext;
    ghost var d0 := p.dest;
    if iSrcPg != PendingPage(src.pending, src.pgsz) {
      rc := PagerResult(faulty);
      if rc == OK {
        var z := PageOf(src.image, src.pgsz, src.nPage, iSrcPg);
        rc := p.BackupOnePage(iSrcPg, z, false, src.nPage, faulty);
        if rc == OK {
          CopiedNextPage(p.g, src.image, d0, p.dest, PageStart(p.g.src, iSrcPg), z);
        }
      }
    } else {
      CopiedSkippingLock(p.g, src.image, p.dest, iSrcPg);
    }
    p.iNext := p.iNext + 1;
  }

  /** A step for nPage pages from page iNext on, or for all pages if nPage is negative, has a page
      to copy that is not the lock page. */
  ghost predicate HasPage(src: SourcePager, iNext: nat, nPage: int)
    requires src.pgsz > 0
    reads src
  {
    exists k: nat :: iNext <= k <= src.nPage && (nPage < 0 || k < iNext + nPage) && IsData(src, k)
  }

  ghost predicate IsData(src: SourcePager, k: nat)
    requires src.pgsz > 0
  {
    k != PendingPage(src.pending, src.pgsz)
  }

  /** Copy up to nPage pages, or all that are left if nPage is negative. */
  method CopyPages(p: Backup, src: SourcePager, nPage: int, faulty: bool) returns (rc: Code)
    requires src.Shape() && IsGeometry(p.g) && p.g.src == src.pgsz && p.g.pending == src.pending
    requires !IsFatalError(p.rc) && p.bDestLocked && p.iNext >= 1
    requires Copied(p.g, src.image, p.dest, PageStart(p.g.src, p.iNext))
    modifies p`dest, p`iNext
    ensures p.iNext >= old(p.iNext)
    ensures rc == OK || (IsFatalError(rc) && rc != DONE)
    ensures rc == OK ==> Copied(p.g, src.image, p.dest, PageStart(p.g.src, p.iNext))
    ensures rc == OK ==> p.iNext > src.nPage || (nPage >= 0 && p.iNext == old(p.iNext) + nPage)
    ensures rc == OK ==> nPage < 0 || p.iNext <= old(p.iNext) + nPage
    ensures !faulty && !p.NeedsOtherPageSize() ==> rc == OK
    ensures p.NeedsOtherPageSize() ==> p.dest == old(p.dest)
    ensures p.NeedsOtherPageSize() && HasPage(src, old(p.iNext), nPage) ==> rc != OK && (!faulty ==> rc == READONLY)
    ensures p.NeedsOtherPageSize() && !HasPage(src, old(p.iNext), nPage) ==> rc == OK
  {
    rc := OK;
    var ii := 0;
    while (nPage < 0 || ii < nPage) && p.iNext <= src.nPage && rc == OK
      invariant p.iNext == old(p.iNext) + ii && ii >= 0
      invariant nPage >= 0 ==> ii <= nPage
      invariant rc == OK || (IsFatalError(rc) && rc != DONE)
      invariant rc == OK ==> Copied(p.g, src.image, p.dest, PageStart(p.g.src, p.iNext))
      invariant !faulty && !p.NeedsOtherPageSize() ==> rc == OK
      invariant p.NeedsOtherPageSize() ==> p.dest == old(p.dest)
      invariant p.NeedsOtherPageSize() && rc == OK ==> forall k | old(p.iNext) <= k < p.iNext :: !IsData(src, k)
      invariant p.NeedsOtherPageSize() && rc != OK ==>
                  HasPage(src, old(p.iNext), nPage) && (!faulty ==> rc == READONLY)
      decreases src.nPage + 1 - p.iNext
    {
      ghost var k := p.iNext;
      rc := CopyNextPage(p, src, faulty);
      ii := ii + 1;
      assert p.NeedsOtherPageSize() && rc != OK ==> IsData(src, k);
    }
  }

  // ---- completing the copy ----

  /** The number of pages the destination keeps. */
  function DestTruncate(g: Geometry, nSrcPage: nat): nat
    requires g.src > 0 && g.dest > 0 && (g.src < g.dest ==> g.dest / g.src > 0)
  {
    if g.src < g.dest then
      var ratio := g.dest / g.src;
      var n := (nSrcPage + ratio - 1) / ratio;
      if n == PendingPage(g.pending, g.dest) then n - 1 else n
    else
      nSrcPage * (g.src / g.dest)
  }

  lemma Ratio(g: Geometry)
    requires IsGeometry(g)
    ensures g.src < g.dest ==> g.dest == g.src * (g.dest / g.src) && g.dest / g.src > 0
    ensures g.src >= g.dest ==> g.src == g.dest * (g.src / g.dest) && g.src / g.dest > 0
  {
    if g.src < g.dest {
      SmallerDivides(g.src, g.dest);
    } else {
      SmallerDivides(g.dest, g.src);
    }
  }

  lemma CeilingBounds(n: nat, r: nat)
    requires n > 0 && r > 0
    ensures var c := (n + r - 1) / r; c > 0 && n <= r * c && r * (c - 1) < n
  {
  }

  /** With smaller source pages: r of them make a destination page, and c destination pages are needed. */
  lemma SmallPagesCovered(g: Geometry, nSrcPage: nat, r: nat, c: nat)
    requires g.dest == g.src * r && nSrcPage <= r * c && c > 0
    ensures g.dest * c >= g.src * nSrcPage
  {
  }

  lemma SmallPagesReachLock(g: Geometry, nSrcPage: nat, r: nat, c: nat)
    requires g.dest == g.src * r && r * (c - 1) <= nSrcPage <= r * c && c > 0
    requires g.pending == g.dest * (c - 1) && g.pending > 0
    ensures c - 1 > 0 && g.pending <= g.src * nSrcPage <= g.pending + g.dest
  {
  }

  lemma LargePagesCovered(g: Geometry, nSrcPage: nat, k: nat)
    requires g.src == g.dest * k && k > 0 && nSrcPage > 0
    ensures nSrcPage * k > 0 && nSrcPage * k * g.dest == g.src * nSrcPage
  {
  }

  /** The truncation size is positive and loses nothing: it covers the source, or it ends right
      before the destination's lock page with the source ending inside that page. */
  lemma DestTruncateCovers(g: Geometry, nSrcPage: nat)
    requires IsGeometry(g) && nSrcPage > 0
    ensures g.src < g.dest ==> g.dest / g.src > 0
    ensures var n, iSize := DestTruncate(g, nSrcPage), g.src * nSrcPage;
            && n > 0
            && (g.src >= g.dest ==> n * g.dest == iSize)
            && (g.src < g.dest ==>
                  || g.dest * n >= iSize
                  || (n == PendingPage(g.pending, g.dest) - 1 && g.pending <= iSize <= g.pending + g.dest))
  {
    Ratio(g);
    if g.src < g.dest {
      var r := g.dest / g.src;
      var c := (nSrcPage + r - 1) / r;
      CeilingBounds(nSrcPage, r);
      if c == PendingPage(g.pending, g.dest) {
        assert g.pending == g.dest * (c - 1);
        SmallPagesReachLock(g, nSrcPage, r, c);
      } else {
        SmallPagesCovered(g, nSrcPage, r, c);
      }
    } else {
      LargePagesCovered(g, nSrcPage, g.src / g.dest);
    }
  }

  /** The bytes from `from` on, up to `end`, are in the destination. */
  ghost predicate TailCopied(image: seq<Byte>, dest: seq<Byte>, from: nat, end: nat) {
    forall o | from <= o < end && o < |image| :: Agrees(image, dest, o)
  }

  /** Outside the range nothing changed. */
  ghost predicate OnlyRangeChanged(d0: seq<Byte>, d1: seq<Byte>, from: nat, end: nat) {
    |d0| <= |d1| && forall o | 0 <= o < |d0| && !(from <= o < end) :: d1[o] == d0[o]
  }

  lemma TailStep(image: seq<Byte>, d0: seq<Byte>, d1: seq<Byte>, d2: seq<Byte>, from: nat, iOff: nat, z: seq<Byte>)
    requires TailCopied(image, d1, from, iOff) && OnlyRangeChanged(d0, d1, from, iOff) && from <= iOff
    requires iOff + |z| <= |image| && z == image[iOff..iOff + |z|]
    requires d2 == Splice(Grow(d1, iOff + |z|), iOff, z)
    ensures TailCopied(image, d2, from, iOff + |z|) && OnlyRangeChanged(d0, d2, from, iOff + |z|)
  {
    forall o | from <= o < iOff + |z| && o < |image|
      ensures Agrees(image, d2, o)
    {
      if o >= iOff {
        assert z[o - iOff] == image[o];
      } else {
        assert Agrees(image, d1, o);
      }
    }
  }

  /** The source pages that lie in the destination's larger lock page are written directly. */
  method WriteLockPageTail(p: Backup, src: SourcePager, faulty: bool) returns (rc: Code)
    requires src.Shape() && IsGeometry(p.g) && p.g.src == src.pgsz && p.g.pending == src.pending
    requires p.g.src < p.g.dest
    modifies p`dest
    ensures rc == OK || (IsFatalError(rc) && rc != DONE)
    ensures !faulty ==> rc == OK
    ensures rc == OK ==> TailCopied(src.image, p.dest, p.g.pending + p.g.src, p.g.pending + p.g.dest)
    ensures rc == OK ==> OnlyRangeChanged(old(p.dest), p.dest, p.g.pending + p.g.src, p.g.pending + p.g.dest)
  {
    var iSize := src.pgsz * src.nPage;
    PageStartIsProduct(src.pgsz, src.nPage + 1);
    TailAligned(p.g);
    var iEnd := if p.g.pending + p.g.dest < iSize then p.g.pending + p.g.dest else iSize;
    rc := WriteTail(p, src, p.g.pending + p.g.src, iEnd, faulty);
  }

  method WriteTail(p: Backup, src: SourcePager, from: nat, iEnd: nat, faulty: bool) returns (rc: Code)
    requires src.Shape() && from % src.pgsz == 0 && iEnd % src.pgsz == 0 && iEnd <= |src.image|
    modifies p`dest
    ensures rc == OK || (IsFatalError(rc) && rc != DONE)
    ensures !faulty ==> rc == OK
    ensures rc == OK ==> TailCopied(src.image, p.dest, from, iEnd)
    ensures rc == OK ==> OnlyRangeChanged(old(p.dest), p.dest, from, iEnd)
  {
    rc := OK;
    var iOff := from;
    while rc == OK && iOff < iEnd
      invariant rc == OK || (IsFatalError(rc) && rc != DONE)
      invariant !faulty ==> rc == OK
      invariant iOff % src.pgsz == 0 && (iOff == from || from < iOff <= iEnd)
      invariant rc == OK ==> TailCopied(src.image, p.dest, from, iOff)
      invariant rc == OK ==> OnlyRangeChanged(old(p.dest), p.dest, from, iOff)
      decreases iEnd - iOff
    {
      rc := WriteTailPage(p, src, iOff, faulty, iEnd, from, old(p.dest));
      iOff := iOff + src.pgsz;
    }
  }

  lemma TailAligned(g: Geometry)
    requires IsGeometry(g) && g.src < g.dest
    ensures (g.pending + g.src) % g.src == 0 && (g.pending + g.dest) % g.src == 0
  {
    SmallerDivides(g.src, g.dest);
    var a, b := g.pending / g.src, g.dest / g.src;
    assert g.pending == g.src * a && g.dest == g.src * b;
    assert g.src * (a + 1) == g.src * a + g.src;
    assert g.src * (a + b) == g.src * a + g.src * b;
    QuotientUnique(g.pending + g.src, g.src, a + 1, 0);
    QuotientUnique(g.pending + g.dest, g.src, a + b, 0);
  }

  method WriteTailPage(
      p: Backup, src: SourcePager, iOff: nat, faulty: bool, ghost iEnd: nat, ghost from: nat, ghost d0: seq<Byte>)
    returns (rc: Code)
    requires src.Shape() && iOff % src.pgsz == 0 && from <= iOff < iEnd <= |src.image| && iEnd % src.pgsz == 0
    requires TailCopied(src.image, p.dest, from, iOff) && OnlyRangeChanged(d0, p.dest, from, iOff)
    modifies p`dest
    ensures rc == OK || (IsFatalError(rc) && rc != DONE)
    ensures !faulty ==> rc == OK
    ensures (iOff + src.pgsz) % src.pgsz == 0 && iOff + src.pgsz <= iEnd
    ensures rc == OK ==> TailCopied(src.image, p.dest, from, iOff + src.pgsz)
    ensures rc == OK ==> OnlyRangeChanged(d0, p.dest, from, iOff + src.pgsz)
  {
    AlignedStep(src.pgsz, iOff, iEnd);
    PageAtOffset(src.pgsz, iOff);
    var iSrcPg := iOff / src.pgsz + 1;
    PageInRange(src.pgsz, src.nPage, iSrcPg);
    rc := PagerResult(faulty);
    if rc == OK {
      var z := PageOf(src.image, src.pgsz, src.nPage, iSrcPg);
      ghost var d1 := p.dest;
      p.dest := Splice(Grow(p.dest, iOff + src.pgsz), iOff, z);
      TailStep(src.image, d0, d1, p.dest, from, iOff, z);
    }
  }

  lemma PageInRange(pgsz: nat, nPage: nat, k: nat)
    requires pgsz > 0 && k >= 1 && PageStart(pgsz, k) < PageStart(pgsz, nPage + 1)
    ensures k <= nPage
  {
    if k > nPage {
      PageStartMonotone(pgsz, nPage + 1, k);
      assert false;
    }
  }

  lemma CopiedWithSmallerPages(g: Geometry, image: seq<Byte>, d0: seq<Byte>, d1: seq<Byte>, d2: seq<Byte>)
    requires g.src < g.dest && Copied(g, image, d0, |image|) && OnlyHeaderChanged(d0, d1)
    requires OnlyRangeChanged(d1, d2, g.pending + g.src, g.pending + g.dest)
    requires TailCopied(image, d2, g.pending + g.src, g.pending + g.dest)
    ensures FullyCopied(g, image, Truncate(d2, |image|))
  {
    forall o | 0 <= o < |image| && !InLockPage(g.pending, g.src, o) && !InRewrittenField(o)
      ensures Agrees(image, d2, o) && Agrees(image, Truncate(d2, |image|), o)
    {
      if InLockPage(g.pending, g.dest, o) {
        assert g.pending + g.src <= o < g.pending + g.dest;
        assert Agrees(image, d2, o);
      } else {
        assert Exposed(g, o) && Agrees(image, d0, o);
        assert d2[o] == d1[o];
      }
    }
  }

  lemma CopiedWithLargerPages(g: Geometry, image: seq<Byte>, d0: seq<Byte>, d1: seq<Byte>)
    requires g.src >= g.dest && Copied(g, image, d0, |image|) && OnlyHeaderChanged(d0, d1)
    ensures FullyCopied(g, image, Truncate(d1, |image|))
  {
    forall o | 0 <= o < |image| && !InLockPage(g.pending, g.src, o) && !InRewrittenField(o)
      ensures Agrees(image, Truncate(d1, |image|), o)
    {
      assert Exposed(g, o) && Agrees(image, d0, o);
    }
  }

  /** A copy has the header of the source. */
  lemma HeaderCopied(g: Geometry, image: seq<Byte>, dest: seq<Byte>)
    requires IsGeometry(g) && |image| >= 512 && Copied(g, image, dest, |image|)
    ensures |dest| >= 100 && dest[18..20] == image[18..20]
  {
    assert Exposed(g, 18) && Exposed(g, 19) && Exposed(g, 99);
    assert Agrees(image, dest, 18) && Agrees(image, dest, 19) && Agrees(image, dest, 99);
  }

  /** Write the new schema version, and the format versions if need be. */
  method Rehead(p: Backup, ghost image: seq<Byte>)
    requires |p.dest| >= 100 && p.iDestSchema == SchemaVersion(p.journal)
    requires !p.settings.isWal && image == [] ==> p.dest[18..20] == [1, 1]
    requires !p.settings.isWal && |image| >= 20 ==> p.dest[18..20] == image[18..20]
    modifies p`dest
    ensures OnlyHeaderChanged(old(p.dest), p.dest) && Versioned(p.settings, p.journal, image, p.dest)
  {
    var header: seq<Byte> := *;
    p.dest := Reheaded(p.dest, header, p.settings.isWal, (p.iDestSchema + 1) % TWO32);
  }

  /** Write what the page-wise copy leaves out, and cut the destination to size. */
  method WriteRest(p: Backup, src: SourcePager, faulty: bool, ghost d0: seq<Byte>) returns (rc: Code)
    requires src.Shape() && IsGeometry(p.g) && p.g.src == src.pgsz && p.g.pending == src.pending
    requires src.nPage > 0 && |src.image| >= 512 && Copied(p.g, src.image, d0, |src.image|)
    requires OnlyHeaderChanged(d0, p.dest) && |p.dest| >= 44
    modifies p`dest
    ensures rc == OK || (IsFatalError(rc) && rc != DONE)
    ensures !faulty ==> rc == OK
    ensures rc == OK ==> FullyCopied(p.g, src.image, p.dest)
    ensures rc == OK ==> |p.dest| >= 44 && forall o | 0 <= o < 44 :: p.dest[o] == old(p.dest)[o]
  {
    ghost var d1 := p.dest;
    DestTruncateCovers(p.g, src.nPage);
    PageStartIsProduct(src.pgsz, src.nPage + 1);
    var nDestTruncate := DestTruncate(p.g, src.nPage);
    if p.g.src < p.g.dest {
      rc := WriteLockPageTail(p, src, faulty);
      if rc == OK {
        CopiedWithSmallerPages(p.g, src.image, d0, d1, p.dest);
        p.dest := Truncate(p.dest, |src.image|);
        rc := PagerResult(faulty);
      }
    } else {
      CopiedWithLargerPages(p.g, src.image, d0, d1);
      p.dest := Truncate(p.dest, nDestTruncate * p.g.dest);
      rc := PagerResult(faulty);
    }
  }

  /** Complete the copy of a source that is not empty, and commit. */
  method CommitCopy(p: Backup, src: SourcePager, faulty: bool) returns (rc: Code)
    requires src.Shape() && IsGeometry(p.g) && p.g.src == src.pgsz && p.g.pending == src.pending
    requires src.nPage > 0 && |src.image| >= 512 && Copied(p.g, src.image, p.dest, |src.image|)
    requires p.iDestSchema == SchemaVersion(p.journal)
    modifies p`dest
    ensures rc == DONE || (IsFatalError(rc) && rc != DONE)
    ensures !faulty ==> rc == DONE
    ensures rc == DONE ==> FullyCopied(p.g, src.image, p.dest)
    ensures rc == DONE ==> Versioned(p.settings, p.journal, src.image, p.dest)
  {
    ghost var d0 := p.dest;
    HeaderCopied(p.g, src.image, p.dest);
    Rehead(p, src.image);
    ghost var d1 := p.dest;
    rc := PagerResult(faulty);
    if rc == OK {
      rc := WriteRest(p, src, faulty, d0);
    }
    if rc == OK {
      HeaderKept(p.settings, p.journal, src.image, d1, p.dest);
      rc := PagerResult(faulty);
      if rc == OK { rc := DONE; }
    }
  }

  /** The source is empty: make the destination a new database of one page, and commit. */
  method CommitNew(p: Backup, faulty: bool) returns (rc: Code)
    requires IsGeometry(p.g) && p.iDestSchema == SchemaVersion(p.journal)
    modifies p`dest
    ensures rc == DONE || (IsFatalError(rc) && rc != DONE)
    ensures !faulty ==> rc == DONE
    ensures rc == DONE ==> IsNewDatabase(p.g, p.settings, p.dest)
    ensures rc == DONE ==> Versioned(p.settings, p.journal, [], p.dest)
  {
    rc := PagerResult(faulty);
    if rc == OK {
      p.dest := NewDatabase(p.dest, p.g.dest, p.settings);
      ghost var made := p.dest;
      NewDatabaseHeader(made, p.g.dest, p.settings);
      Rehead(p, []);
      ghost var d1 := p.dest;
      var nSrcPage := 1;
      DestTruncateCovers(p.g, nSrcPage);
      var nDestTruncate := DestTruncate(p.g, nSrcPage);
      p.dest := Truncate(p.dest, if p.g.src < p.g.dest then p.g.src * nSrcPage else nDestTruncate * p.g.dest);
      HeaderKept(p.settings, p.journal, [], d1, p.dest);
      rc := PagerResult(faulty);
      if rc == OK { rc := DONE; }
    }
  }

  lemma NewDatabaseHeader(img: seq<Byte>, pgsz: nat, s: Settings)
    requires pgsz >= 512 && |img| >= 512 && img[..108] == NewHeader(pgsz, s)
    ensures img[18..20] == [1, 1] && forall o | 0 <= o < 108 :: img[o] == NewHeader(pgsz, s)[o]
  {
    assert forall o | 0 <= o < 108 :: img[o] == img[..108][o];
    assert NewHeader(pgsz, s)[18] == 1 && NewHeader(pgsz, s)[19] == 1;
  }

  /** All pages are copied: update the schema version and commit the destination. */
  method CompleteCopy(p: Backup, src: SourcePager, faulty: bool) returns (rc: Code)
    requires src.Shape() && IsGeometry(p.g) && p.g.src == src.pgsz && p.g.pending == src.pending
    requires Copied(p.g, src.image, p.dest, |src.image|) && p.iDestSchema == SchemaVersion(p.journal)
    modifies p`dest
    ensures rc == DONE || (IsFatalError(rc) && rc != DONE)
    ensures !faulty ==> rc == DONE
    ensures rc == DONE ==> Completed(p.g, p.settings, src.image, p.dest)
    ensures rc == DONE ==> Versioned(p.settings, p.journal, src.image, p.dest)
  {
    if src.nPage == 0 {
      rc := CommitNew(p, faulty);
    } else {
      PageStartMonotone(src.pgsz, 2, src.nPage + 1);
      rc := PagerResult(faulty);
      if rc == OK {
        rc := CommitCopy(p, src, faulty);
      }
    }
  }

  lemma CopiedEverything(g: Geometry, image: seq<Byte>, dest: seq<Byte>, nPage: nat, iNext: nat)
    requires |image| == PageStart(g.src, nPage + 1) && iNext > nPage && Copied(g, image, dest, PageStart(g.src, iNext))
    ensures Copied(g, image, dest, |image|)
  {
    PageStartMonotone(g.src, nPage + 1, iNext);
  }

  /** The pages of one step, and what follows when they were the last. */
  method CopyAndComplete(p: Backup, src: SourcePager, nPage: int, faulty: bool) returns (rc: Code)
    requires src.Shape() && p.Ready() && p.g.src == src.pgsz && p.g.pending == src.pending
    requires !IsFatalError(p.rc) && p.bDestLocked && p.InStep(src.image)
    modifies p`dest, p`iNext, p`nPagecount, p`nRemaining
    ensures p.iNext >= 1
    ensures rc == OK || IsFatalError(rc)
    ensures rc == OK ==> Copied(p.g, src.image, p.dest, PageStart(p.g.src, p.iNext)) && p.iNext <= src.nPage
    ensures rc == OK || rc == DONE ==> p.nPagecount == src.nPage && p.nRemaining == (src.nPage + 1 - p.iNext) % TWO32
    ensures rc == DONE ==> Completed(p.g, p.settings, src.image, p.dest)
    ensures rc == DONE ==> Versioned(p.settings, p.journal, src.image, p.dest)
    ensures rc == OK ==> nPage >= 0 && p.iNext == old(p.iNext) + nPage <= src.nPage
    ensures rc == DONE ==> nPage < 0 || old(p.iNext) + nPage > src.nPage
    ensures p.NeedsOtherPageSize() && HasPage(src, old(p.iNext), nPage) ==>
              rc != OK && rc != DONE && p.dest == old(p.dest) && (!faulty ==> rc == READONLY)
    ensures !faulty && !(p.NeedsOtherPageSize() && HasPage(src, old(p.iNext), nPage)) ==> rc == OK || rc == DONE
  {
    rc := CopyPages(p, src, nPage, faulty);
    if rc == OK {
      p.nPagecount := src.nPage;
      p.nRemaining := (src.nPage + 1 - p.iNext) % TWO32;
      if p.iNext > src.nPage {
        CopiedEverything(p.g, src.image, p.dest, src.nPage, p.iNext);
        rc := CompleteCopy(p, src, faulty);
      }
    }
  }

  /** Register the backup with the source pager. */
  method AttachBackupObject(p: Backup, src: SourcePager)
    requires !p.isAttached
    modifies p`isAttached, src`backups
    ensures src.backups == [p] + old(src.backups) && p.isAttached
  {
    src.backups := [p] + src.backups;
    p.isAttached := true;
  }

  /** What holds of a backup whose step ends with rc, before rc is recorded. */
  ghost predicate StepEnds(p: Backup, image: seq<Byte>, rc: Code)
    reads p
  {
    && IsGeometry(p.g) && p.iNext >= 1
    && (!IsFatalError(rc) && p.iNext > 1 ==> p.isAttached && p.bDestLocked)
    && (p.bDestLocked ==> p.iDestSchema == SchemaVersion(p.journal))
    && (!IsFatalError(rc) ==> Copied(p.g, image, p.dest, PageStart(p.g.src, p.iNext)))
  }

  /** The work of a step that is not refused. */
  method StepPages(p: Backup, src: SourcePager, nPage: int, faulty: bool) returns (rc: Code)
    requires Connected(p, src) && !IsFatalError(p.rc)
    modifies p`dest, p`journal, p`iDestSchema, p`bDestLocked, p`iNext, p`nPagecount, p`nRemaining, p`isAttached
    modifies src`backups
    ensures StepEnds(p, src.image, rc)
    ensures if p.isAttached == old(p.isAttached) then src.backups == old(src.backups)
            else !old(p.isAttached) && src.backups == [p] + old(src.backups)
    ensures rc == DONE ==> Completed(p.g, p.settings, src.image, p.dest)
    ensures rc == DONE ==> Versioned(p.settings, p.Original(), src.image, p.dest)
    ensures p.Original() == old(p.Original())
    ensures rc == OK ==> nPage >= 0 && p.iNext == old(p.iNext) + nPage <= src.nPage
    ensures rc == OK || rc == DONE ==> p.nPagecount == src.nPage && p.nRemaining == (src.nPage + 1 - p.iNext) % TWO32
    ensures p.isUser && src.inWrite ==> rc == BUSY && unchanged(p)
    ensures p.settings.isWal && p.g.src != p.g.dest ==>
              rc != OK && rc != DONE && p.dest == old(p.dest) && p.iNext == old(p.iNext)
    ensures p.NeedsOtherPageSize() && HasPage(src, old(p.iNext), nPage) ==>
              rc != OK && rc != DONE && p.dest == old(p.dest)
    ensures !faulty && !(p.isUser && src.inWrite) ==>
              rc == if RefusesPages(p, src, old(p.iNext), nPage) then READONLY
                    else if 0 <= nPage && old(p.iNext) + nPage <= src.nPage then OK
                    else DONE
  {
    rc := OpenTransactions(p, src, faulty);
    if rc == OK {
      rc := CopyAndComplete(p, src, nPage, faulty);
      if rc == OK && !p.isAttached {
        AttachBackupObject(p, src);
      }
    }
    if rc == IOERR_NOMEM { rc := NOMEM; }
  }

  /** The destination cannot take the pages of a step, because it has another page size and uses a
      write-ahead log or is in memory. */
  ghost predicate RefusesPages(p: Backup, src: SourcePager, iNext: nat, nPage: int)
    requires src.pgsz > 0
    reads src
  {
    p.g.src != p.g.dest && (p.settings.isWal || (p.settings.isMemdb && HasPage(src, iNext, nPage)))
  }

  /** Copy up to nPage pages.  When the last one is done, DONE is returned and the destination
      holds the source as it is at this moment.  A step is refused while the source is being written,
      and fails if the destination cannot take the pages. */
  method BackupStep(p: Backup, src: SourcePager, nPage: int, faulty: bool) returns (rc: Code)
    requires Connected(p, src)
    modifies p, src`backups
    ensures Connected(p, src) && p.rc == rc
    ensures src.backups == old(src.backups) || (!old(p.isAttached) && src.backups == [p] + old(src.backups))
    ensures IsFatalError(old(p.rc)) ==> unchanged(p) && src.backups == old(src.backups)
    ensures !IsFatalError(old(p.rc)) && rc == DONE ==> Completed(p.g, p.settings, src.image, p.dest)
    ensures !IsFatalError(old(p.rc)) && rc == DONE ==> Versioned(p.settings, p.Original(), src.image, p.dest)
    ensures p.Original() == old(p.Original())
    ensures rc == OK ==> nPage >= 0 && p.iNext == old(p.iNext) + nPage <= src.nPage
    ensures !IsFatalError(old(p.rc)) && (rc == OK || rc == DONE) ==>
              p.nPagecount == src.nPage && p.nRemaining == (src.nPage + 1 - p.iNext) % TWO32
    ensures !IsFatalError(old(p.rc)) && p.isUser && src.inWrite ==>
              rc == BUSY && p.dest == old(p.dest) && p.iNext == old(p.iNext)
    ensures !IsFatalError(old(p.rc)) && p.settings.isWal && p.g.src != p.g.dest ==>
              rc != OK && rc != DONE && p.dest == old(p.dest) && p.iNext == old(p.iNext)
    ensures !IsFatalError(old(p.rc)) && p.settings.isMemdb && p.g.src != p.g.dest
            && HasPage(src, old(p.iNext), nPage) ==>
              rc != OK && rc != DONE && p.dest == old(p.dest)
    ensures old(p.rc) in {OK, BUSY, LOCKED} && !faulty && !(p.isUser && src.inWrite) ==>
              rc == if RefusesPages(p, src, old(p.iNext), nPage) then READONLY
                    else if 0 <= nPage && old(p.iNext) + nPage <= src.nPage then OK
                    else DONE
  {
    rc := p.rc;
    if !IsFatalError(rc) {
      rc := StepPages(p, src, nPage, faulty);
      p.rc := rc;
      assert p.Ready() && p.InStep(src.image);
    }
  }

  /** Take the backup off the source's list, roll the destination back unless it was committed,
      and report how the backup ended. */
  method BackupFinish(p: Backup, src: SourcePager) returns (rc: Code)
    requires Connected(p, src)
    modifies p, src`backups
    ensures src.Valid() && p !in src.backups && !p.isAttached
    ensures forall b | b in old(src.backups) && b != p :: b in src.backups
    ensures rc == if old(p.rc) == DONE then OK else old(p.rc)
    ensures p.dest == if old(p.rc) == DONE then old(p.dest) else old(p.Original())
  {
    if p.isAttached {
      Detach(p, src);
    }
    if p.rc != DONE && p.bDestLocked {
      p.dest := p.journal;
    }
    rc := if p.rc == DONE then OK else p.rc;
    p.isAttached := false;
    p.bDestLocked := false;
  }

  /** Unlink the backup from the list. */
  method Detach(p: Backup, src: SourcePager)
    requires src.Valid() && p in src.backups
    modifies src`backups
    ensures src.Valid() && p !in src.backups
    ensures forall b | b in old(src.backups) && b != p :: b in src.backups
  {
    var pp := 0;
    while src.backups[pp] != p
      invariant 0 <= pp < |src.backups| && p in src.backups[pp..]
      decreases |src.backups| - pp
    {
      pp := pp + 1;
    }
    src.backups := src.backups[..pp] + src.backups[pp + 1..];
  }

  /** Copy a whole database in one step: all of it arrives, or the target is as before. */
  method BtreeCopyFile(src: SourcePager, destPgsz: nat, settings: Settings, to: seq<Byte>, faulty: bool)
    returns (rc: Code, result: seq<Byte>)
    requires src.Valid() && src.nPage <= 0x7FFF_FFFF
    requires IsGeometry(Geometry(src.pending, src.pgsz, destPgsz))
    modifies src`backups
    ensures src.Valid()
    ensures rc == OK ==> Completed(Geometry(src.pending, src.pgsz, destPgsz), settings, src.image, result)
    ensures rc == OK ==> Versioned(settings, to, src.image, result)
    ensures rc != OK ==> result == to
    ensures !faulty && src.pgsz == destPgsz ==> rc == OK
    ensures !faulty && !settings.isWal && !settings.isMemdb ==> rc == OK
  {
    var b := new Backup(Geometry(src.pending, src.pgsz, destPgsz), false, settings, to);
    var code := BackupStep(b, src, 0x7FFF_FFFF, faulty);
    assert b.rc != OK;
    rc := BackupFinish(b, src);
    result := b.dest;
  }

  // ---- every interleaving ----

  /** What can happen to a backup and its source. */
  datatype Event =
    | Step(nPage: int, faulty: bool)
    | Write(iPg: nat, data: seq<Byte>, faulty: bool)
    | Shorten(nPages: nat)
    | ExternalWrite(newPages: nat, newImage: seq<Byte>)
    | WriteTransaction(open: bool)

  /** The content of the source: its size in pages and its bytes. */
  datatype Content = Content(nPage: nat, image: seq<Byte>)

  /** Page iPg can be written: it exists, or it comes right behind the last one, where the lock
      page does not count. */
  predicate CanWrite(pending: nat, pgsz: nat, nPage: nat, iPg: nat)
    requires pgsz > 0
  {
    && iPg >= 1 && iPg != PendingPage(pending, pgsz)
    && (iPg <= nPage + 1 || (iPg == nPage + 2 && nPage + 1 == PendingPage(pending, pgsz)))
  }

  /** Something may go wrong in this event. */
  predicate IsFaulty(e: Event) {
    (e.Step? || e.Write?) && e.faulty
  }

  /** What one event makes of the source.  A step leaves it alone, and so does an event that does
      not fit the source. */
  function AfterEvent(pending: nat, pgsz: nat, c: Content, e: Event): Content
    requires pgsz > 0
  {
    match e
    case Step(_, _) => c
    case Write(iPg, data, _) =>
      if |data| == pgsz && CanWrite(pending, pgsz, c.nPage, iPg)
      then Content(if iPg > c.nPage then iPg else c.nPage, PageWritten(c.image, PageStart(pgsz, iPg), data))
      else c
    case Shorten(n) =>
      if n <= c.nPage then Content(n, Truncate(c.image, PageStart(pgsz, n + 1))) else c
    case ExternalWrite(n, image) =>
      if |image| == PageStart(pgsz, n + 1) then Content(n, image) else c
    case WriteTransaction(_) => c
  }

  /** What a sequence of events makes of the source. */
  function SourceAfter(pending: nat, pgsz: nat, c: Content, events: seq<Event>): Content
    requires pgsz > 0
    decreases |events|
  {
    if events == [] then c
    else
      var n := |events| - 1;
      AfterEvent(pending, pgsz, SourceAfter(pending, pgsz, c, events[..n]), events[n])
  }

  /** The source's content now. */
  function ContentOf(src: SourcePager): Content
    reads src
  {
    Content(src.nPage, src.image)
  }

  /** A page of the source is written. */
  method WriteEvent(p: Backup, src: SourcePager, iPg: nat, data: seq<Byte>, faulty: bool)
    requires Connected(p, src) && |data| == src.pgsz && CanWrite(src.pending, src.pgsz, src.nPage, iPg)
    modifies src`image, src`nPage, src.backups
    ensures src.Valid() && BelongsTo(p, src) && p.Ready() && src.Spared(p) && src.Unharmed(p, faulty)
    ensures ContentOf(src) == AfterEvent(src.pending, src.pgsz, old(ContentOf(src)), Write(iPg, data, faulty))
  {
    forall k | 0 <= k < |src.backups|
      ensures !src.Missed(src.backups[k], |src.image|, PageStart(src.pgsz, iPg))
    {
      var b := src.backups[k];
      assert src.Tracks(b, src.image);
      NoGapWithinReach(b.g, src.nPage, iPg, PageStart(src.pgsz, b.iNext));
    }
    src.WritePage(iPg, data, faulty);
  }

  /** A change of the source, whether or not the backup is registered there. */
  method SourceChanges(p: Backup, src: SourcePager, e: Event)
    requires Connected(p, src) && !e.Step?
    modifies p, src`image, src`nPage, src`inWrite, src.backups
    ensures Connected(p, src) && src.Spared(p) && src.Unharmed(p, IsFaulty(e))
    ensures src.inWrite == if e.WriteTransaction? then e.open else old(src.inWrite)
    ensures ContentOf(src) == AfterEvent(src.pending, src.pgsz, old(ContentOf(src)), e)
  {
    match e {
      case Write(iPg, data, faulty) =>
        if |data| == src.pgsz && CanWrite(src.pending, src.pgsz, src.nPage, iPg) {
          WriteEvent(p, src, iPg, data, faulty);
        }
      case Shorten(n) =>
        if n <= src.nPage { src.TruncateTo(n); }
      case ExternalWrite(n, image) =>
        if |image| == PageStart(src.pgsz, n + 1) { src.ExternalChange(n, image); }
      case WriteTransaction(open) =>
        src.inWrite := open;
    }
    StillConnected(p, src);
  }

  /** A registered backup is followed by the source itself; another one has nothing to lose. */
  lemma StillConnected(p: Backup, src: SourcePager)
    requires src.Valid() && BelongsTo(p, src) && p.Ready()
    ensures Connected(p, src)
  {
  }

  /** One step of the backup or one change of the source.  Only a step finishes a backup, and then
      the destination is complete; a backup that has ended does not change any more. */
  method Happen(p: Backup, src: SourcePager, e: Event)
    requires Connected(p, src)
    modifies p, src, src.backups
    ensures Connected(p, src) && p.Original() == old(p.Original())
    ensures ContentOf(src) == AfterEvent(src.pending, src.pgsz, old(ContentOf(src)), e)
    ensures src.inWrite == if e.WriteTransaction? then e.open else old(src.inWrite)
    ensures src.backups == old(src.backups) || src.backups == [p] + old(src.backups)
    ensures IsFatalError(old(p.rc)) ==> p.rc == old(p.rc) && p.dest == old(p.dest)
    ensures !IsFatalError(old(p.rc)) && p.rc == DONE ==>
              e.Step? && Completed(p.g, p.settings, src.image, p.dest)
    ensures !IsFatalError(old(p.rc)) && p.rc == DONE ==> Versioned(p.settings, p.Original(), src.image, p.dest)
    ensures e.Step? && p.rc == OK ==> e.nPage >= 0 && p.iNext == old(p.iNext) + e.nPage <= src.nPage
    ensures e.Step? && !IsFatalError(old(p.rc)) && p.isUser && src.inWrite ==>
              p.rc == BUSY && p.dest == old(p.dest) && p.iNext == old(p.iNext)
    ensures !IsFaulty(e) && p.g.src == p.g.dest && !IsFatalError(old(p.rc)) ==> !IsFatalError(p.rc) || p.rc == DONE
  {
    if e.Step? {
      var rc := BackupStep(p, src, e.nPage, e.faulty);
    } else {
      SourceChanges(p, src, e);
    }
  }

  /** The destination is what a backup of the source leaves that was completed by event k. */
  ghost predicate CompletedBy(
      g: Geometry, settings: Settings, original: seq<Byte>, dest: seq<Byte>, pending: nat, pgsz: nat, c: Content,
      events: seq<Event>, k: nat)
    requires pgsz > 0 && g.dest >= 512
  {
    && k < |events| && events[k].Step?
    && Completed(g, settings, SourceAfter(pending, pgsz, c, events[..k]).image, dest)
    && Versioned(settings, original, SourceAfter(pending, pgsz, c, events[..k]).image, dest)
  }

  /** Whatever happens, in whatever order: the source is what the events make of it, every page
      below iNext is copied, a destination that is not committed can still be rolled back, and if
      the backup has ended with DONE, it was a step that ended it, and the destination holds the
      source as it was at that step. */
  method Run(p: Backup, src: SourcePager, events: seq<Event>)
    requires Connected(p, src) && p.rc != DONE
    modifies p, src, src.backups
    ensures Connected(p, src) && p.Original() == old(p.Original())
    ensures ContentOf(src) == SourceAfter(src.pending, src.pgsz, old(ContentOf(src)), events)
    ensures p.rc == DONE ==>
              exists k :: 0 <= k < |events| &&
                CompletedBy(
                  p.g, p.settings, p.Original(), p.dest, src.pending, src.pgsz, old(ContentOf(src)), events, k)
    ensures p.g.src == p.g.dest && !IsFatalError(old(p.rc))
            && (forall k | 0 <= k < |events| :: !IsFaulty(events[k])) ==>
              !IsFatalError(p.rc) || p.rc == DONE
  {
    ghost var c, last := ContentOf(src), 0;
    assert events[..0] == [];
    var i := 0;
    while i < |events|
      invariant 0 <= i <= |events|
      invariant Connected(p, src) && p.Original() == old(p.Original())
      invariant ContentOf(src) == SourceAfter(src.pending, src.pgsz, c, events[..i])
      invariant p.rc == DONE ==>
                  last < i && CompletedBy(p.g, p.settings, p.Original(), p.dest, src.pending, src.pgsz, c, events, last)
      invariant p.g.src == p.g.dest && !IsFatalError(old(p.rc)) && (forall k | 0 <= k < i :: !IsFaulty(events[k])) ==>
                  !IsFatalError(p.rc) || p.rc == DONE
      invariant forall k | 0 <= k < |src.backups| :: src.backups[k] == p || src.backups[k] in old(src.backups)
    {
      ghost var ended := IsFatalError(p.rc);
      Happen(p, src, events[i]);
      assert events[..i + 1][..i] == events[..i];
      if !ended { last := i; }
      i := i + 1;
    }
    assert events[..i] == events;
  }
}
