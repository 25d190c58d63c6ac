/** The ownership invariant in the terms of a file system check (fsck), without the record of
    owners that the proofs keep. */
module FsAudit {
  import opened FsLayout
  import opened FsCodec
  import opened FsOwnership
  import opened FsBitmap
  import opened FsSuper
  import opened FsInode
  import opened FsFiles

  /** Inode d stores block number b in slot s. */
  predicate StoredAt(disk: Disk, d: Dinode, s: Slot, b: int)
    requires |d.direct| == NR_DIRECT_BLOCKS
  {
    SlotOk(s) && b != 0 && Ptr(disk, d, s) == b
  }

  /** Inode d reaches block b: through a direct, indirect or double-indirect number. */
  ghost predicate Reaches(disk: Disk, d: Dinode, b: int) {
    |d.direct| == NR_DIRECT_BLOCKS && exists s :: StoredAt(disk, d, s, b)
  }

  /** What fsck looks for: the blocks marked as used are exactly those that inodes
      reach, no block is reached twice, each block count is right, and free data blocks
      are zero. */
  ghost predicate Audit(disk: Disk, ino: seq<Dinode>, used: set<int>) {
    && |disk| == DEVICE_BLOCKS && |ino| == NR_INODES && Sized(ino)
    && (forall b :: b in used ==> DATA_BLOCKS_START <= b < |disk| && ReachedBySome(disk, ino, b))
    && (forall n: nat, b :: n < |ino| && Reaches(disk, ino[n], b) ==> b in used)
    && (forall n: nat, m: nat, b :: n < m < |ino| && Reaches(disk, ino[n], b) ==> !Reaches(disk, ino[m], b))
    && (forall n: nat, s, s', b ::
          n < |ino| && StoredAt(disk, ino[n], s, b) && StoredAt(disk, ino[n], s', b) ==> s == s')
    && (forall n: nat :: n < |ino| ==> ino[n].blockCount == |ReachedBy(disk, ino, used, n)|)
    && (forall b :: DATA_BLOCKS_START <= b < |disk| && b !in used ==> disk[b] == ZERO_BLOCK)
  }

  ghost predicate ReachedBySome(disk: Disk, ino: seq<Dinode>, b: int) {
    exists n: nat :: n < |ino| && Reaches(disk, ino[n], b)
  }

  ghost function ReachedBy(disk: Disk, ino: seq<Dinode>, used: set<int>, n: nat): set<int>
    requires n < |ino|
  {
    set b | b in used && Reaches(disk, ino[n], b)
  }

  /** With an owner on record for every used block, an inode reaches exactly the blocks
      it owns. */
  lemma ReachIsOwn(disk: Disk, ino: seq<Dinode>, owner: Owners, n: nat, b: int)
    requires Fsck(disk, ino, owner) && Settled(owner) && n < |ino|
    ensures Reaches(disk, ino[n], b) <==> b in owner && owner[b].inode == n
  {
    assert Recorded(disk, ino[n], n, owner) && Stored(disk, ino[n], n, owner);
    hide Ptr;
    if b in owner && owner[b].inode == n { assert StoredAt(disk, ino[n], owner[b].slot, b); }
  }

  lemma StoredOnce(disk: Disk, ino: seq<Dinode>, owner: Owners, n: nat, s: Slot, b: int)
    requires Fsck(disk, ino, owner) && n < |ino| && StoredAt(disk, ino[n], s, b)
    ensures b in owner && owner[b] == Owner(n, s)
  {
    hide Ptr;
    assert Recorded(disk, ino[n], n, owner);
  }

  lemma CountPasses(disk: Disk, ino: seq<Dinode>, owner: Owners, n: nat)
    requires Fsck(disk, ino, owner) && Settled(owner) && n < |ino|
    ensures ino[n].blockCount == |ReachedBy(disk, ino, owner.Keys, n)|
  {
    forall b ensures Reaches(disk, ino[n], b) <==> b in owner && owner[b].inode == n {
      ReachIsOwn(disk, ino, owner, n, b);
    }
    hide Reaches, Recorded, Stored;
    assert ReachedBy(disk, ino, owner.Keys, n) == Blocks(owner, n);
  }

  lemma FsckPasses(disk: Disk, ino: seq<Dinode>, owner: Owners)
    requires Fsck(disk, ino, owner) && Settled(owner)
    ensures Audit(disk, ino, owner.Keys)
  {
    hide Ptr, Reaches, StoredAt, Recorded, Stored;
    forall n: nat, b | n < |ino| ensures Reaches(disk, ino[n], b) <==> b in owner && owner[b].inode == n {
      ReachIsOwn(disk, ino, owner, n, b);
    }
    forall n: nat, s, s', b | n < |ino| && StoredAt(disk, ino[n], s, b) && StoredAt(disk, ino[n], s', b)
      ensures s == s'
    {
      StoredOnce(disk, ino, owner, n, s, b);
      StoredOnce(disk, ino, owner, n, s', b);
    }
    forall n: nat | n < |ino| ensures ino[n].blockCount == |ReachedBy(disk, ino, owner.Keys, n)| {
      CountPasses(disk, ino, owner, n);
    }
    forall b | b in owner.Keys ensures ReachedBySome(disk, ino, b) {
      assert Reaches(disk, ino[owner[b].inode], b);
    }
    forall n: nat, m: nat, b | n < m < |ino| && Reaches(disk, ino[n], b) ensures !Reaches(disk, ino[m], b) {
      assert owner[b].inode == n;
    }
    hide ReachedBy, ReachedBySome, Counted;
  }

  /** Who reaches a used block, and from which slot. */
  ghost function FindOwner(disk: Disk, ino: seq<Dinode>, b: int): (o: Owner)
    requires Sized(ino) && ReachedBySome(disk, ino, b)
    ensures o.inode < |ino| && StoredAt(disk, ino[o.inode], o.slot, b)
  {
    var n: nat :| n < |ino| && Reaches(disk, ino[n], b);
    var s :| StoredAt(disk, ino[n], s, b);
    Owner(n, s)
  }

  /** The owner found for a block is the only place that stores it. */
  lemma OwnerIs(disk: Disk, ino: seq<Dinode>, used: set<int>, n: nat, s: Slot, b: int)
    requires Audit(disk, ino, used) && n < |ino| && StoredAt(disk, ino[n], s, b)
    ensures b in used && ReachedBySome(disk, ino, b) && FindOwner(disk, ino, b) == Owner(n, s)
  {
    hide Ptr;
    assert Reaches(disk, ino[n], b);
    var o := FindOwner(disk, ino, b);
    assert Reaches(disk, ino[o.inode], b);
  }

  lemma OwnsWhatItStores(disk: Disk, ino: seq<Dinode>, used: set<int>, owner: Owners, n: nat)
    requires Audit(disk, ino, used) && n < |ino| && owner.Keys == used
    requires forall b :: b in used ==> owner[b] == FindOwner(disk, ino, b)
    ensures && Recorded(disk, ino[n], n, owner) && Stored(disk, ino[n], n, owner)
            && ino[n].blockCount == |Blocks(owner, n)|
  {
    hide Ptr, Audit;
    assert Sized(ino) && ino[n].blockCount == |ReachedBy(disk, ino, used, n)| by { CountsAudited(disk, ino, used, n); }
    forall s | SlotOk(s) && Ptr(disk, ino[n], s) != 0
      ensures Ptr(disk, ino[n], s) in owner && owner[Ptr(disk, ino[n], s)] == Owner(n, s)
    {
      OwnerIs(disk, ino, used, n, s, Ptr(disk, ino[n], s));
    }
    forall b ensures b in ReachedBy(disk, ino, used, n) <==> b in Blocks(owner, n) {
      if b in used && Reaches(disk, ino[n], b) {
        var s :| StoredAt(disk, ino[n], s, b);
        OwnerIs(disk, ino, used, n, s, b);
      }
      if b in owner { UsedReached(disk, ino, used, b); }
    }
    assert ReachedBy(disk, ino, used, n) == Blocks(owner, n);
  }

  lemma CountsAudited(disk: Disk, ino: seq<Dinode>, used: set<int>, n: nat)
    requires Audit(disk, ino, used) && n < |ino|
    ensures Sized(ino) && ino[n].blockCount == |ReachedBy(disk, ino, used, n)|
    ensures forall b :: b in used ==> ReachedBySome(disk, ino, b)
  {
    hide Reaches, StoredAt, ReachedBy, ReachedBySome;
  }

  lemma UsedReached(disk: Disk, ino: seq<Dinode>, used: set<int>, b: int)
    requires Audit(disk, ino, used) && b in used
    ensures ReachedBySome(disk, ino, b)
    ensures var o := FindOwner(disk, ino, b);
            o.inode < |ino| && StoredAt(disk, ino[o.inode], o.slot, b) && o.slot != Loose
  {
    hide Reaches, ReachedBy;
  }

  lemma AuditIsFsck(disk: Disk, ino: seq<Dinode>, used: set<int>) returns (owner: Owners)
    requires Audit(disk, ino, used)
    ensures owner.Keys == used && Fsck(disk, ino, owner) && Settled(owner)
  {
    hide Ptr, Reaches, ReachedBy, Recorded, Stored, StoredAt;
    owner := map b | b in used :: FindOwner(disk, ino, b);
    forall n: nat | n < |ino|
      ensures && Recorded(disk, ino[n], n, owner) && Stored(disk, ino[n], n, owner)
              && ino[n].blockCount == |Blocks(owner, n)|
    {
      OwnsWhatItStores(disk, ino, used, owner, n);
    }
    forall b | b in used ensures owner[b].slot != Loose && owner[b].inode < |ino| {
      UsedReached(disk, ino, used, b);
    }
    hide ReachedBySome;
  }

  /** The invariant that all operations keep is the one fsck looks for. */
  lemma FsckIsAudit(disk: Disk, ino: seq<Dinode>, used: set<int>)
    ensures Audit(disk, ino, used) <==>
              exists owner: Owners :: owner.Keys == used && Fsck(disk, ino, owner) && Settled(owner)
  {
    hide Audit, FsckBut, Settled;
    if Audit(disk, ino, used) { var owner := AuditIsFsck(disk, ino, used); }
    if owner: Owners :| owner.Keys == used && Fsck(disk, ino, owner) && Settled(owner) { FsckPasses(disk, ino, owner); }
  }

  /** In a file system in order, the bits of the block freemap on the device, the blocks
      that inodes reach and the counters agree. */
  lemma FreemapIsReach(t: InodeTable, torn: set<nat>)
    requires t.Valid() && Files(t, torn)
    ensures t.sb.blockFreemap.Valid() && t.sb.used == DataBlocks(t.sb.blockFreemap.Marked())
    ensures Audit(t.sb.disk, t.ino, DataBlocks(t.sb.blockFreemap.Marked()))
    ensures t.sb.sb.usedBlockCount == |t.sb.blockFreemap.Marked()|
    ensures Freemaps(t.sb.disk, Raw(t.sb.inodeFreemap.v[..]), Raw(t.sb.blockFreemap.v[..]))
  {
    hide FsckBut, Inodes, Settled, Audit, Accounts, InodeTable.Coherent, EncodeSuper, BitAt;
    FsckPasses(t.sb.disk, t.ino, t.owner);
  }
}
