/**
 The superblock pass: inode bitmaps, then superblock and descriptors group by group.  Restarting it
 raises each free-inode count once, because the primary copy, which a restarted run reads, is the
 first one written.
 */
module FixupSupers {
  import opened Arithmetic
  import opened InodeNumbers
  import opened FixupModel

  /** The sizes an image must have for the counters to be exact. */
  ghost predicate CountersFit(geo: Geometry, og: Image) {
    var newIpg := NewIpg(geo, og.super.ipg);
    && ROOT_INO <= og.super.ipg
    && geo.groups >= 1 && 0 in geo.superGroups
    && |og.freeCounts| == |og.bitmaps| == geo.groups
    && (forall i :: 0 <= i < geo.groups ==> og.freeCounts[i] <= og.super.ipg)
    && newIpg < WORD16
    && newIpg * geo.groups < WORD32
    && og.super.freeInodes + geo.groups * (newIpg - og.super.ipg) < WORD32
  }

  lemma NewIpgBounds(geo: Geometry, ipg: Positive)
    ensures ipg <= NewIpg(geo, ipg) < ipg + geo.inodesPerBlock && NewIpg(geo, ipg) % geo.inodesPerBlock == 0
    ensures NewIpg(geo, NewIpg(geo, ipg)) == NewIpg(geo, ipg)
  {
    AlignUpBounds(ipg, geo.inodesPerBlock);
    AlignUpIdempotent(NewIpg(geo, ipg), geo.inodesPerBlock);
  }

  /** The superblock every copy holds in the end. */
  ghost function NewSuper(geo: Geometry, og: Image): Super {
    NewIpgBounds(geo, og.super.ipg);
    var newIpg := NewIpg(geo, og.super.ipg);
    Super(newIpg, newIpg * geo.groups, og.super.freeInodes + geo.groups * (newIpg - og.super.ipg), false)
  }

  ghost function NewCounts(geo: Geometry, og: Image): seq<nat> {
    NewIpgBounds(geo, og.super.ipg);
    seq(|og.freeCounts|, i requires 0 <= i < |og.freeCounts| =>
      og.freeCounts[i] + NewIpg(geo, og.super.ipg) - og.super.ipg)
  }

  ghost function NewBitmaps(geo: Geometry, og: Image): seq<set<nat>> {
    seq(|og.bitmaps|, i requires 0 <= i < |og.bitmaps| =>
      ClearBits(og.bitmaps[i], og.super.ipg, NewIpg(geo, og.super.ipg)))
  }

  lemma ModSmall(x: nat, m: Positive)
    requires x < m
    ensures x % m == x
  {
  }

  /** The first time round, the modular arithmetic gives the true sums... */
  lemma RaisingIsExact(geo: Geometry, og: Image)
    requires CountersFit(geo, og) && CountsConsistent(geo, og.super, NewIpg(geo, og.super.ipg))
    ensures RaisedSuper(geo, og.super, NewIpg(geo, og.super.ipg)).(unmountable := false) == NewSuper(geo, og)
    ensures RaisedCounts(og.freeCounts, Growth(og.super, NewIpg(geo, og.super.ipg))) == NewCounts(geo, og)
  {
    var newIpg := NewIpg(geo, og.super.ipg);
    NewIpgBounds(geo, og.super.ipg);
    GrowthFits(newIpg, og.super.ipg, geo.groups);
    ModSmall(newIpg - og.super.ipg, WORD32);
    ModSmall(newIpg * geo.groups, WORD32);
    ModSmall(og.super.freeInodes + geo.groups * (newIpg - og.super.ipg), WORD32);
    var r := RaisedSuper(geo, og.super, newIpg);
    assert r.inodes == (og.super.inodes + geo.groups * Growth(og.super, newIpg)) % WORD32;
    CountsExact(og.freeCounts, og.super.ipg, newIpg);
  }

  /** The checks that stop the tool pass exactly if the inodes counted are those of all groups, to 32 bits. */
  lemma ConsistentIff(geo: Geometry, s: Super)
    ensures CountsConsistent(geo, s, NewIpg(geo, s.ipg)) <==> s.inodes % WORD32 == s.ipg * geo.groups % WORD32
  {
    var newIpg, k := NewIpg(geo, s.ipg), geo.groups;
    NewIpgBounds(geo, s.ipg);
    var q := (newIpg - s.ipg) / WORD32;
    var lost := q * k;
    assert newIpg - s.ipg == q * WORD32 + Growth(s, newIpg);
    assert k * Growth(s, newIpg) == newIpg * k - s.ipg * k - lost * WORD32;
    ModPlusMultiple(s.inodes + k * Growth(s, newIpg), lost, WORD32);
    SumsAgree(s.inodes, s.ipg * k, newIpg * k);
  }

  lemma SumsAgree(a: nat, b: nat, c: nat)
    ensures (a + c - b) % WORD32 == c % WORD32 <==> a % WORD32 == b % WORD32
  {
    if (a + c - b) % WORD32 == c % WORD32 {
      ModAdd(a + c - b, b - c, WORD32);
      ModAdd(c, b - c, WORD32);
    }
    if a % WORD32 == b % WORD32 {
      ModAdd(a, c - b, WORD32);
      ModAdd(b, c - b, WORD32);
    }
  }

  lemma GrowthFits(newIpg: Positive, ipg: Positive, groups: nat)
    requires ipg <= newIpg && groups >= 1 && newIpg * groups < WORD32
    ensures newIpg - ipg < WORD32
  {
    MulMonotone(1, groups, newIpg);
  }

  lemma CountsExact(counts: seq<nat>, ipg: Positive, newIpg: Positive)
    requires ipg <= newIpg < WORD16 && forall i :: 0 <= i < |counts| ==> counts[i] <= ipg
    ensures |RaisedCounts(counts, newIpg - ipg)| == |counts|
    ensures forall i :: 0 <= i < |counts| ==> RaisedCounts(counts, newIpg - ipg)[i] == counts[i] + newIpg - ipg
  {
  }

  /** ...and a later time nothing more is added. */
  lemma RaisingAgainAddsNothing(geo: Geometry, og: Image, s: Super)
    requires CountersFit(geo, og) && s.(unmountable := false) == NewSuper(geo, og)
    ensures CountsConsistent(geo, s, s.ipg)
    ensures RaisedSuper(geo, s, s.ipg) == s
    ensures RaisedCounts(NewCounts(geo, og), Growth(s, s.ipg)) == NewCounts(geo, og)
  {
    NewIpgBounds(geo, og.super.ipg);
    ModSmall(s.inodes, WORD32);
    ModSmall(s.freeInodes, WORD32);
    assert Growth(s, s.ipg) == 0;
    assert RaisedCounts(NewCounts(geo, og), 0) == NewCounts(geo, og);
  }

  // ---- inode bitmaps ----

  /** The bits from lo up to hi are gone from every bitmap, and no other bit has changed. */
  ghost predicate BitsCleared(before: seq<set<nat>>, after: seq<set<nat>>, lo: nat, hi: nat) {
    && |after| == |before|
    && forall i, b: nat :: 0 <= i < |before| ==> (b in after[i] <==> b in before[i] && !(lo <= b < hi))
  }

  lemma NewBitmapsAreCleared(geo: Geometry, og: Image)
    ensures BitsCleared(og.bitmaps, NewBitmaps(geo, og), og.super.ipg, NewIpg(geo, og.super.ipg))
  {
  }

  ghost predicate BitmapsPartly(geo: Geometry, og: Image, maps: seq<set<nat>>, upto: nat) {
    && |maps| == |og.bitmaps|
    && forall i :: 0 <= i < |maps| ==>
         maps[i] == NewBitmaps(geo, og)[i] || (i >= upto && maps[i] == og.bitmaps[i])
  }

  lemma {:induction false} CheckBitmapsKeeps(geo: Geometry, og: Image, img: Image, group: nat, left: Budget, o: Outcome)
    requires BitmapsPartly(geo, og, img.bitmaps, group)
    requires o == CheckBitmaps(img, group, og.super.ipg, NewIpg(geo, og.super.ipg), left)
    ensures o.img == img.(bitmaps := o.img.bitmaps)
    ensures BitmapsPartly(geo, og, o.img.bitmaps, 0)
    ensures o.status != Failed && (o.status == Done ==> o.img.bitmaps == NewBitmaps(geo, og))
    ensures o.status == Done ==>
              |o.img.bitmaps| == |og.bitmaps| &&
              forall i, b: nat :: 0 <= i < |og.bitmaps| ==>
                (b in o.img.bitmaps[i] <==> b in og.bitmaps[i] && !(og.super.ipg <= b < NewIpg(geo, og.super.ipg)))
    ensures left == Unlimited ==> o.status == Done && o.left == Unlimited
    decreases |img.bitmaps| - group
  {
    if group < |img.bitmaps| {
      var lo, hi := og.super.ipg, NewIpg(geo, og.super.ipg);
      var cleared := ClearBits(img.bitmaps[group], lo, hi);
      assert cleared == NewBitmaps(geo, og)[group] by {
        assert ClearBits(NewBitmaps(geo, og)[group], lo, hi) == NewBitmaps(geo, og)[group];
      }
      if cleared == img.bitmaps[group] {
        CheckBitmapsKeeps(geo, og, img, group + 1, left, o);
      } else if left != AtMost(0) {
        CheckBitmapsKeeps(geo, og, img.(bitmaps := img.bitmaps[group := cleared]), group + 1, Spend(left), o);
      }
    } else {
      assert img.bitmaps == NewBitmaps(geo, og);
    }
  }

  lemma {:induction false} NothingToClear(img: Image, group: nat, n: nat, left: Budget)
    ensures CheckBitmaps(img, group, n, n, left) == Outcome(img, left, Done)
    decreases |img.bitmaps| - group
  {
    if group < |img.bitmaps| {
      assert ClearBits(img.bitmaps[group], n, n) == img.bitmaps[group];
      NothingToClear(img, group + 1, n, left);
    }
  }

  // ---- superblock copies ----

  ghost predicate IsBackupGroup(geo: Geometry, g: nat) {
    g in geo.superGroups && 0 < g < geo.groups
  }

  /** Backups below `upto` are rewritten, where they reach their place; every other one is rewritten or as it was. */
  ghost predicate BackupsPartly(geo: Geometry, og: Image, backups: map<nat, Super>, upto: nat) {
    && (forall g :: g in backups ==>
          (IsBackupGroup(geo, g) && ReachesHome(geo, g) && backups[g] == NewSuper(geo, og))
          || (g in og.backups && backups[g] == og.backups[g]))
    && (forall g :: g in og.backups ==> g in backups)
    && (forall g: nat :: IsBackupGroup(geo, g) && ReachesHome(geo, g) && g < upto ==>
          g in backups && backups[g] == NewSuper(geo, og))
  }

  /** The same for descriptors, all of which reach their place. */
  ghost predicate CountsPartly(geo: Geometry, og: Image, counts: map<nat, seq<nat>>, upto: nat) {
    && (forall g :: g in counts ==>
          (IsBackupGroup(geo, g) && counts[g] == NewCounts(geo, og)) || (g in og.backupCounts && counts[g] == og.backupCounts[g]))
    && (forall g :: g in og.backupCounts ==> g in counts)
    && (forall g: nat :: IsBackupGroup(geo, g) && g < upto ==> g in counts && counts[g] == NewCounts(geo, og))
  }

  /** Block b is where a superblock copy ends up that should have gone elsewhere. */
  ghost predicate IsHit(geo: Geometry, b: nat) {
    exists g :: IsBackupGroup(geo, g) && !ReachesHome(geo, g) && LandsOn(geo, g) == b
  }

  /** Of the blocks in d some that are hit are gone, those hit from groups below `upto` certainly. */
  ghost predicate BlocksPartly(geo: Geometry, d: Disk, disk: Disk, upto: nat) {
    && (forall b :: b in disk ==> b in d && disk[b] == d[b])
    && (forall b :: b in d && b !in disk ==> IsHit(geo, b))
    && (forall g: nat :: IsBackupGroup(geo, g) && !ReachesHome(geo, g) && g < upto ==> LandsOn(geo, g) !in disk)
  }

  ghost predicate CopiesPartly(geo: Geometry, og: Image, d: Disk, img: Image, upto: nat) {
    && BackupsPartly(geo, og, img.backups, upto)
    && CountsPartly(geo, og, img.backupCounts, upto)
    && BlocksPartly(geo, d, img.disk, upto)
  }

  lemma WriteGroupKeeps(geo: Geometry, og: Image, d: Disk, img: Image, group: nat, sb: Super)
    requires group >= 1 && group < geo.groups && sb.(unmountable := false) == NewSuper(geo, og)
    requires CopiesPartly(geo, og, d, img, group) && group in geo.superGroups
    ensures var img' := WriteGroup(geo, img, group, sb, NewCounts(geo, og));
      && img' == img.(backups := img'.backups, backupCounts := img'.backupCounts, disk := img'.disk)
      && CopiesPartly(geo, og, d, img', group + 1)
  {
    hide ReachesHome, LandsOn, NewSuper, NewCounts, BackupsPartly, CountsPartly, BlocksPartly;
    assert IsBackupGroup(geo, group);
    OneBackup(geo, og, img.backups, group);
    OneCount(geo, og, img.backupCounts, group);
    OneBlock(geo, d, img.disk, group);
  }

  lemma OneBackup(geo: Geometry, og: Image, backups: map<nat, Super>, group: nat)
    requires BackupsPartly(geo, og, backups, group) && IsBackupGroup(geo, group)
    ensures ReachesHome(geo, group) ==> BackupsPartly(geo, og, backups[group := NewSuper(geo, og)], group + 1)
    ensures !ReachesHome(geo, group) ==> BackupsPartly(geo, og, backups, group + 1)
  {
    hide ReachesHome, NewSuper;
  }

  lemma OneCount(geo: Geometry, og: Image, counts: map<nat, seq<nat>>, group: nat)
    requires CountsPartly(geo, og, counts, group) && IsBackupGroup(geo, group)
    ensures CountsPartly(geo, og, counts[group := NewCounts(geo, og)], group + 1)
  {
    hide NewCounts;
  }

  lemma OneBlock(geo: Geometry, d: Disk, disk: Disk, group: nat)
    requires BlocksPartly(geo, d, disk, group) && IsBackupGroup(geo, group)
    ensures ReachesHome(geo, group) ==> BlocksPartly(geo, d, disk, group + 1)
    ensures !ReachesHome(geo, group) ==> BlocksPartly(geo, d, disk - {LandsOn(geo, group)}, group + 1)
  {
    hide ReachesHome, LandsOn;
    if !ReachesHome(geo, group) {
      assert IsHit(geo, LandsOn(geo, group));
    }
  }

  lemma CopiesPartlySkip(geo: Geometry, og: Image, d: Disk, img: Image, group: nat)
    requires CopiesPartly(geo, og, d, img, group) && group !in geo.superGroups
    ensures CopiesPartly(geo, og, d, img, group + 1)
  {
    hide ReachesHome, LandsOn, NewSuper, NewCounts;
  }

  lemma CopiesPartlyLess(geo: Geometry, og: Image, d: Disk, img: Image, group: nat, less: nat)
    requires CopiesPartly(geo, og, d, img, group) && (less <= group || group >= geo.groups)
    ensures CopiesPartly(geo, og, d, img, less)
  {
    hide ReachesHome, LandsOn, NewSuper, NewCounts;
  }

  lemma {:induction false} WriteGroupsKeeps(geo: Geometry, og: Image, d: Disk, img: Image, group: nat, sb: Super, left: Budget,
                                            o: Outcome)
    requires group >= 1 && sb.(unmountable := false) == NewSuper(geo, og)
    requires CopiesPartly(geo, og, d, img, group)
    requires o == WriteGroups(geo, img, group, sb, NewCounts(geo, og), left)
    ensures o.img == img.(backups := o.img.backups, backupCounts := o.img.backupCounts, disk := o.img.disk)
    ensures CopiesPartly(geo, og, d, o.img, 0)
    ensures o.status != Failed && (o.status == Done ==> CopiesPartly(geo, og, d, o.img, geo.groups))
    ensures left == Unlimited ==> o.status == Done && o.left == Unlimited
    decreases geo.groups - group
  {
    hide CopiesPartly, WriteGroup, NewSuper, NewCounts;
    CopiesPartlyLess(geo, og, d, img, group, 0);
    if group < geo.groups {
      if group !in geo.superGroups {
        CopiesPartlySkip(geo, og, d, img, group);
        WriteGroupsKeeps(geo, og, d, img, group + 1, sb, left, o);
      } else if left != AtMost(0) {
        WriteGroupKeeps(geo, og, d, img, group, sb);
        WriteGroupsKeeps(geo, og, d, WriteGroup(geo, img, group, sb, NewCounts(geo, og)), group + 1, sb, Spend(left), o);
      }
    } else {
      CopiesPartlyLess(geo, og, d, img, group, geo.groups);
    }
  }

  // ---- the whole pass ----

  /** Before group 0 is written: only stray bitmap bits may have gone.  The directory blocks are d. */
  ghost predicate SupersOld(geo: Geometry, og: Image, d: Disk, img: Image) {
    && img == og.(phase := img.phase, super := og.super.(unmountable := img.super.unmountable),
                  disk := d, bitmaps := img.bitmaps)
    && BitmapsPartly(geo, og, img.bitmaps, 0)
  }

  /** After group 0 is written. */
  ghost predicate SupersNew(geo: Geometry, og: Image, d: Disk, img: Image, upto: nat) {
    && img == og.(phase := img.phase, super := NewSuper(geo, og).(unmountable := img.super.unmountable),
                  freeCounts := NewCounts(geo, og), disk := img.disk,
                  bitmaps := NewBitmaps(geo, og), backups := img.backups, backupCounts := img.backupCounts)
    && CopiesPartly(geo, og, d, img, upto)
  }

  /** A pass from the start or a restarted one, killed or not. */
  lemma UpdateSupersKeeps(geo: Geometry, og: Image, d: Disk, img: Image, left: Budget, o: Outcome)
    requires CountersFit(geo, og) && CountsConsistent(geo, og.super, NewIpg(geo, og.super.ipg))
    requires SupersOld(geo, og, d, img) || SupersNew(geo, og, d, img, 0)
    requires o == UpdateSupers(geo, img, NewIpg(geo, og.super.ipg), left)
    ensures SupersOld(geo, og, d, o.img) || SupersNew(geo, og, d, o.img, 0)
    ensures o.img.phase == img.phase && o.img.super.unmountable == img.super.unmountable
    ensures o.status != Failed && (o.status == Done ==> SupersNew(geo, og, d, o.img, geo.groups))
    ensures left == Unlimited ==> o.status == Done && o.left == Unlimited
  {
    hide CopiesPartly;
    var newIpg := NewIpg(geo, og.super.ipg);
    var sb := RaisedSuper(geo, img.super, newIpg);
    var b := CheckBitmaps(img, 0, img.super.ipg, newIpg, left);
    if SupersOld(geo, og, d, img) {
      CheckBitmapsKeeps(geo, og, img, 0, left, b);
      RaisingIsExact(geo, og);
      assert sb.(unmountable := false) == NewSuper(geo, og);
      NoCopiesYet(geo, og, d, b.img);
    } else {
      NothingToClear(img, 0, newIpg, left);
      RaisingAgainAddsNothing(geo, og, img.super);
    }
    if b.status == Done && b.left != AtMost(0) {
      var first := WriteGroup(geo, b.img, 0, sb, NewCounts(geo, og));
      FromGroupOne(geo, og, d, first);
      WriteGroupsKeeps(geo, og, d, first, 1, sb, Spend(b.left), o);
    }
  }

  lemma NoCopiesYet(geo: Geometry, og: Image, d: Disk, img: Image)
    requires img.backups == og.backups && img.backupCounts == og.backupCounts && img.disk == d
    ensures CopiesPartly(geo, og, d, img, 0)
  {
  }

  lemma FromGroupOne(geo: Geometry, og: Image, d: Disk, img: Image)
    requires CopiesPartly(geo, og, d, img, 0)
    ensures CopiesPartly(geo, og, d, img, 1)
  {
  }

  // ---- where the copies are written ----

  /**
   Descriptors always reach their place.  A backup superblock does so only on images with blocks
   above 1 KiB: otherwise it lands one block early, on the last block of the group before.
   */
  lemma BackupsReachTheirPlace(blockSize: Positive, blocksPerGroup: Positive, group: nat)
    requires blockSize >= 1024
    ensures DescriptorsWritten(blockSize, blocksPerGroup, group) == DescriptorsHome(blockSize, blocksPerGroup, group)
    ensures SuperWritten(blockSize, blocksPerGroup, group) == SuperHome(blockSize, blocksPerGroup, group)
            <==> group == 0 || blockSize > 1024
    ensures group > 0 && blockSize == 1024 ==>
              SuperWritten(blockSize, blocksPerGroup, group) == SuperHome(blockSize, blocksPerGroup, group) - blockSize
  {
    var f, g := FirstDataBlock(blockSize), group * blocksPerGroup;
    assert (f + g) * blockSize == f * blockSize + g * blockSize;
    assert (f + g + 1) * blockSize == f * blockSize + g * blockSize + blockSize;
  }

  /** Which blocks are hit: none above 1 KiB, and block g * blocksPerGroup for every backup group g otherwise. */
  lemma HitIff(geo: Geometry, b: nat)
    requires geo.blockSize >= 1024
    ensures IsHit(geo, b) <==> geo.blockSize == 1024 && exists g: nat :: IsBackupGroup(geo, g) && g * geo.blocksPerGroup == b
  {
    forall g: nat | g > 0
      ensures ReachesHome(geo, g) <==> geo.blockSize > 1024
      ensures LandsOn(geo, g) == g * geo.blocksPerGroup
    {
      BackupsReachTheirPlace(geo.blockSize, geo.blocksPerGroup, g);
      DivModUnique(g * geo.blocksPerGroup, geo.blockSize, 0);
    }
    hide ReachesHome, LandsOn;
    if geo.blockSize == 1024 {
      forall g: nat | IsBackupGroup(geo, g) && g * geo.blocksPerGroup == b ensures IsHit(geo, b) {
        assert !ReachesHome(geo, g) && LandsOn(geo, g) == b;
      }
    }
  }
}
