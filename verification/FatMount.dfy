/**
 * fat_mount() of bios/fat.c: what a boot sector must say before the volume is
 * trusted, computed in 32-bit arithmetic, against the same conditions in
 * unbounded arithmetic.
 */
module FatMount {
  import opened Bytes
  import opened ChainWalk
  import opened Fat
  import opened Wrappers

  const TWO64 := 0x1_0000_0000_0000_0000
  const FAT32_FLOOR := 65525

  function Le16(s: Sector, o: nat): (r: nat)
    requires o + 2 <= 512
    ensures r < 0x1_0000
  {
    var lo: int, hi: int := s[o], s[o + 1];
    lo + 0x100 * hi
  }

  /** The fields of a boot sector that mounting looks at. */
  datatype Bpb = Bpb(signature: bool, fsType: seq<Byte>, bytesPerSector: nat, spc: nat, reserved: nat, numFats: nat,
                     rootEntries: nat, total16: nat, fatSize16: nat, total32: nat, fatSize: nat, rootCluster: nat)

  /** "FAT32   " */
  const FAT32_NAME := Ascii("FAT32   ")

  function Decode(s: Sector): (b: Bpb)
    ensures Sized(b)
  {
    Bpb(s[510] == 0x55 && s[511] == 0xAA, s[82..90], Le16(s, 11), s[13], Le16(s, 14), s[16],
        Le16(s, 17), Le16(s, 19), Le16(s, 22), Le32(s[32..36]), Le32(s[36..40]), Le32(s[44..48]))
  }

  /** A boot sector field after field; what mounting does not look at is given as it is. */
  function BootSector(b: Bpb, oem: seq<Byte>, media: Byte, geometry: seq<Byte>, flags: seq<Byte>, volumeName: seq<Byte>, code: seq<Byte>,
                      mark: seq<Byte>): Sector
    requires Sized(b) && |b.fsType| == 8
    requires |oem| == 11 && |geometry| == 8 && |flags| == 4 && |volumeName| == 34 && |code| == 420 && |mark| == 2
  {
    Front(b, oem, media) + Middle(b, geometry, flags) + (volumeName + b.fsType + code + mark)
  }

  /** Bytes 0 to 23. */
  function Front(b: Bpb, oem: seq<Byte>, media: Byte): (r: seq<Byte>)
    requires Sized(b) && |oem| == 11
    ensures |r| == 24
  {
    oem + Sizes(b) + Counts(b, media)
  }

  /** Bytes 11 to 16. */
  function Sizes(b: Bpb): (r: seq<Byte>)
    requires Sized(b)
    ensures |r| == 6
  {
    LeBytes(b.bytesPerSector, 2) + LeBytes(b.spc, 1) + LeBytes(b.reserved, 2) + LeBytes(b.numFats, 1)
  }

  /** Bytes 17 to 23. */
  function Counts(b: Bpb, media: Byte): (r: seq<Byte>)
    requires Sized(b)
    ensures |r| == 7
  {
    LeBytes(b.rootEntries, 2) + LeBytes(b.total16, 2) + [media] + LeBytes(b.fatSize16, 2)
  }

  /** Bytes 24 to 47. */
  function Middle(b: Bpb, geometry: seq<Byte>, flags: seq<Byte>): (r: seq<Byte>)
    requires Sized(b) && |geometry| == 8 && |flags| == 4
    ensures |r| == 24
  {
    geometry + LeBytes(b.total32, 4) + LeBytes(b.fatSize, 4) + flags + LeBytes(b.rootCluster, 4)
  }

  /** Every field is read from where it is written. */
  lemma DecodeReads(b: Bpb, oem: seq<Byte>, media: Byte, geometry: seq<Byte>, flags: seq<Byte>, volumeName: seq<Byte>, code: seq<Byte>,
                    mark: seq<Byte>)
    requires Sized(b) && |b.fsType| == 8 && b.bytesPerSector < 0x1_0000 && b.rootEntries < 0x1_0000 && b.fatSize16 < 0x1_0000
    requires |oem| == 11 && |geometry| == 8 && |flags| == 4 && |volumeName| == 34 && |code| == 420 && |mark| == 2
    ensures Decode(BootSector(b, oem, media, geometry, flags, volumeName, code, mark)) == b.(signature := mark == [0x55, 0xAA])
  {
    hide LeBytes, Le32, Le16, Front, Middle;
    var s := BootSector(b, oem, media, geometry, flags, volumeName, code, mark);
    FrontReads(b, oem, media, s);
    MiddleReads(b, geometry, flags, s);
    assert s[82..90] == b.fsType && s[510..512] == mark;
    assert s[510] == mark[0] && s[511] == mark[1];
  }

  lemma FrontReads(b: Bpb, oem: seq<Byte>, media: Byte, s: Sector)
    requires Sized(b) && |oem| == 11 && s[..24] == Front(b, oem, media)
    requires b.bytesPerSector < 0x1_0000 && b.rootEntries < 0x1_0000 && b.fatSize16 < 0x1_0000
    ensures Le16(s, 11) == b.bytesPerSector && s[13] == b.spc && Le16(s, 14) == b.reserved && s[16] == b.numFats
    ensures Le16(s, 17) == b.rootEntries && Le16(s, 19) == b.total16 && Le16(s, 22) == b.fatSize16
  {
    hide LeBytes, Le16, Sizes, Counts;
    assert s[..24][11..17] == Sizes(b) && s[..24][17..24] == Counts(b, media);
    assert s[11..17] == s[..24][11..17] && s[17..24] == s[..24][17..24];
    SizesRead(b, s);
    CountsRead(b, media, s);
  }

  lemma SizesRead(b: Bpb, s: Sector)
    requires Sized(b) && b.bytesPerSector < 0x1_0000 && s[11..17] == Sizes(b)
    ensures Le16(s, 11) == b.bytesPerSector && s[13] == b.spc && Le16(s, 14) == b.reserved && s[16] == b.numFats
  {
    hide LeBytes, Le16;
    var p := s[11..17];
    assert p[0..2] == LeBytes(b.bytesPerSector, 2) && p[3..5] == LeBytes(b.reserved, 2);
    assert p[2] == LeBytes(b.spc, 1)[0] && p[5] == LeBytes(b.numFats, 1)[0];
    LeBytesAre(b.spc);
    LeBytesAre(b.numFats);
    HalfReads(s, 11, p, 0, b.bytesPerSector);
    HalfReads(s, 11, p, 3, b.reserved);
  }

  lemma CountsRead(b: Bpb, media: Byte, s: Sector)
    requires Sized(b) && b.rootEntries < 0x1_0000 && b.fatSize16 < 0x1_0000 && s[17..24] == Counts(b, media)
    ensures Le16(s, 17) == b.rootEntries && Le16(s, 19) == b.total16 && Le16(s, 22) == b.fatSize16
  {
    hide LeBytes, Le16;
    var p := s[17..24];
    assert p[0..2] == LeBytes(b.rootEntries, 2) && p[2..4] == LeBytes(b.total16, 2) && p[5..7] == LeBytes(b.fatSize16, 2);
    HalfReads(s, 17, p, 0, b.rootEntries);
    HalfReads(s, 17, p, 2, b.total16);
    HalfReads(s, 17, p, 5, b.fatSize16);
  }

  lemma HalfReads(s: Sector, from: nat, p: seq<Byte>, o: nat, n: nat)
    requires o + 2 <= |p| && from + |p| <= 512 && s[from..from + |p|] == p && n < 0x1_0000 && p[o..o + 2] == LeBytes(n, 2)
    ensures Le16(s, from + o) == n
  {
    LeBytesAre(n);
    assert s[from + o] == p[o] == p[o..o + 2][0] && s[from + o + 1] == p[o + 1] == p[o..o + 2][1];
  }

  lemma MiddleReads(b: Bpb, geometry: seq<Byte>, flags: seq<Byte>, s: Sector)
    requires Sized(b) && |geometry| == 8 && |flags| == 4 && s[24..48] == Middle(b, geometry, flags)
    ensures Le32(s[32..36]) == b.total32 && Le32(s[36..40]) == b.fatSize && Le32(s[44..48]) == b.rootCluster
  {
    hide LeBytes, Le32;
    var p := s[24..48];
    assert p[8..12] == LeBytes(b.total32, 4) && p[12..16] == LeBytes(b.fatSize, 4) && p[20..24] == LeBytes(b.rootCluster, 4);
    assert s[32..36] == p[8..12] && s[36..40] == p[12..16] && s[44..48] == p[20..24];
    LeReads(b.total32);
    LeReads(b.fatSize);
    LeReads(b.rootCluster);
  }

  /** The widths of the on-disk fields. */
  predicate Sized(b: Bpb) {
    && b.spc < 0x100 && b.numFats < 0x100 && b.reserved < 0x1_0000 && b.total16 < 0x1_0000
    && b.total32 < TWO32 && b.fatSize < TWO32 && b.rootCluster < TWO32
  }

  /** Bitwise and. */
  function And(x: nat, y: nat): nat {
    if x == 0 || y == 0 then 0 else 2 * And(x / 2, y / 2) + (if x % 2 == 1 && y % 2 == 1 then 1 else 0)
  }

  predicate PowerOfTwo(x: nat) {
    x == 1 || (x > 1 && x % 2 == 0 && PowerOfTwo(x / 2))
  }

  lemma {:induction false} AndSelf(x: nat)
    ensures And(x, x) == x
  {
    if x == 0 {
    } else {
      AndSelf(x / 2);
    }
  }

  /** The loader's bit trick. */
  lemma {:induction false} OneBit(x: nat)
    requires x > 0
    ensures And(x, x - 1) == 0 <==> PowerOfTwo(x)
  {
    if x % 2 == 1 {
      assert (x - 1) / 2 == x / 2;
      AndSelf(x / 2);
    } else {
      assert (x - 1) / 2 == x / 2 - 1;
      OneBit(x / 2);
    }
  }

  function TotalSectors(b: Bpb): nat {
    if b.total32 != 0 then b.total32 else b.total16
  }

  /** All copies of the FAT together. */
  function FatSectors(b: Bpb): nat {
    Times(b.fatSize, b.numFats)
  }

  /** a / b, spelled like Times. */
  function Quotient(a: nat, b: nat): nat
    requires b > 0
  {
    if a < b then 0 else 1 + Quotient(a - b, b)
  }

  lemma {:induction false} QuotientIsDivision(a: nat, b: nat)
    requires b > 0
    ensures Quotient(a, b) == a / b
  {
    if a < b {
      DivUnique(a, b, 0, a);
    } else {
      QuotientIsDivision(a - b, b);
      var q, r := (a - b) / b, (a - b) % b;
      assert a == (q + 1) * b + r;
      DivUnique(a, b, q + 1, r);
    }
  }

  lemma {:induction false} QuotientBound(a: nat, b: nat, n: nat)
    requires b > 0
    ensures n <= Quotient(a, b) <==> Times(n, b) <= a
  {
    if n == 0 || a < b {
    } else {
      QuotientBound(a - b, b, n - 1);
    }
  }

  predicate FieldsOk(b: Bpb) {
    && b.signature && b.bytesPerSector == SECTOR && b.spc != 0 && And(b.spc, b.spc - 1) == 0
    && b.numFats != 0 && b.reserved != 0 && b.rootEntries == 0 && b.fatSize16 == 0
    && b.fatSize != 0 && b.rootCluster >= 2 && b.fsType == FAT32_NAME && TotalSectors(b) != 0
  }

  function Wrap32(x: nat): nat {
    x % TWO32
  }

  function Wrap64(x: nat): nat {
    x % TWO64
  }

  /** The sectors that n table entries take up. */
  function SectorsFor(n: nat): nat {
    (n * 4 + SECTOR - 1) / SECTOR
  }

  lemma Rounded(n: nat, m: nat)
    ensures SectorsFor(n) <= m <==> 4 * n <= SECTOR * m
  {
  }

  /** The mount, check by check, with every intermediate value in 32 bits. */
  function Mount(b: Bpb, partitionLba: nat, partitionSectors: nat): Option<Volume>
    requires Sized(b)
  {
    var total := TotalSectors(b);
    if !FieldsOk(b) || total > partitionSectors || b.reserved >= total then None
    else if b.fatSize > Quotient(total - b.reserved, b.numFats) then None
    else
      var reservedPlusFats := Wrap32(b.reserved + Wrap32(FatSectors(b)));
      if reservedPlusFats >= total then None
      else
        var clusters := Quotient(total - reservedPlusFats, b.spc);
        if clusters < FAT32_FLOOR then None
        else if b.fatSize < SectorsFor(Wrap32(clusters + 2)) then None
        else if b.rootCluster >= Wrap32(clusters + 2) then None
        else
          var fatStart := Wrap64(partitionLba + b.reserved);
          Some(Volume(partitionLba, b.spc, b.numFats, b.fatSize, b.rootCluster, clusters, fatStart,
                      Wrap64(fatStart + FatSectors(b))))
  }

  /** The clusters the boot sector promises, in unbounded arithmetic. */
  function Clusters(b: Bpb): nat
    requires b.spc > 0 && b.reserved + FatSectors(b) <= TotalSectors(b)
  {
    Quotient(TotalSectors(b) - b.reserved - FatSectors(b), b.spc)
  }

  /** A FAT32 volume that lies inside its partition and whose table has an entry for every cluster. */
  ghost predicate WellFormed(b: Bpb, partitionSectors: nat) {
    && b.signature && b.fsType == FAT32_NAME && b.bytesPerSector == SECTOR && b.spc > 0 && PowerOfTwo(b.spc)
    && b.rootEntries == 0 && b.fatSize16 == 0 && b.numFats >= 1 && b.reserved >= 1 && b.fatSize >= 1
    && b.reserved + FatSectors(b) < TotalSectors(b) <= partitionSectors
    && Clusters(b) >= 65525
    && 4 * (Clusters(b) + 2) <= SECTOR * b.fatSize
    && 2 <= b.rootCluster < Clusters(b) + 2
  }

  /** Mounting lets volumes with clusters beyond 2^30 through. */
  lemma HugeVolume()
    ensures var b := Bpb(true, FAT32_NAME, SECTOR, 1, 32, 1, 0, 0, 0, 0x8000_0000, 0x100_0000, 0x4000_0000);
      Sized(b) && WellFormed(b, 0x8000_0000) && Clusters(b) > b.rootCluster
  {
    TimesIsProduct(0x100_0000, 1);
    QuotientIsDivision(0x8000_0000 - 32 - 0x100_0000, 1);
  }

  lemma {:induction false} PowerBelowTwice(x: nat, m: nat)
    requires PowerOfTwo(x) && PowerOfTwo(m) && x < 2 * m
    ensures x <= m
  {
    if x <= 1 || m <= 1 {
    } else {
      PowerBelowTwice(x / 2, m / 2);
    }
  }

  lemma {:induction false} QuotientSmall(a: nat, b: nat)
    requires b > 0
    ensures Quotient(a, b) <= a && Times(Quotient(a, b), b) <= a
  {
    if a < b {
    } else {
      QuotientSmall(a - b, b);
    }
  }

  lemma {:induction false} TimesAtLeast(a: nat, b: nat)
    requires b > 0
    ensures Times(a, b) >= a
  {
    if a == 0 {
    } else {
      TimesAtLeast(a - 1, b);
    }
  }

  /** No 32-bit computation in a mount wraps once the checks before it have passed. */
  lemma NoWrap(b: Bpb)
    requires Sized(b) && FieldsOk(b) && b.reserved < TotalSectors(b)
    requires b.fatSize <= Quotient(TotalSectors(b) - b.reserved, b.numFats)
    ensures b.reserved + FatSectors(b) <= TotalSectors(b) < TWO32
    ensures Wrap32(b.reserved + Wrap32(FatSectors(b))) == b.reserved + FatSectors(b)
    ensures Wrap32(Clusters(b) + 2) == Clusters(b) + 2 < TWO32
  {
    QuotientBound(TotalSectors(b) - b.reserved, b.numFats, b.fatSize);
    QuotientSmall(TotalSectors(b) - b.reserved - FatSectors(b), b.spc);
    TimesAtLeast(b.fatSize, b.numFats);
  }

  /** What a mount that succeeds returns, free of every modulus. */
  lemma MountValue(b: Bpb, partitionLba: nat, partitionSectors: nat)
    requires Sized(b) && partitionLba + partitionSectors <= TWO64
    requires Mount(b, partitionLba, partitionSectors).Some?
    ensures b.spc > 0 && b.reserved + FatSectors(b) < TotalSectors(b) <= partitionSectors
    ensures Clusters(b) >= FAT32_FLOOR && 4 * (Clusters(b) + 2) <= SECTOR * b.fatSize && 2 <= b.rootCluster < Clusters(b) + 2 < TWO32
    ensures Mount(b, partitionLba, partitionSectors).value
            == Volume(partitionLba, b.spc, b.numFats, b.fatSize, b.rootCluster, Clusters(b),
                      partitionLba + b.reserved, partitionLba + b.reserved + FatSectors(b))
  {
    hide And, Quotient, PowerOfTwo, Times, Wrap32, SectorsFor;
    NoWrap(b);
    Rounded(Clusters(b) + 2, b.fatSize);
    assert partitionLba + b.reserved + FatSectors(b) < TWO64;
  }

  lemma MountedSpc(b: Bpb, partitionLba: nat, partitionSectors: nat)
    requires Sized(b) && Mount(b, partitionLba, partitionSectors).Some?
    ensures 1 <= b.spc <= 128 && b.numFats >= 1 && b.reserved >= 1
  {
    hide Quotient, Times, Wrap32, Wrap64, SectorsFor, TotalSectors, And;
    OneBit(b.spc);
    PowerBelowTwice(b.spc, 128);
  }

  /** Everything the reader relies on, and that the volume lies inside its partition. */
  lemma MountSound(b: Bpb, partitionLba: nat, partitionSectors: nat)
    requires Sized(b) && partitionLba + partitionSectors <= TWO64
    requires Mount(b, partitionLba, partitionSectors).Some?
    ensures var v := Mount(b, partitionLba, partitionSectors).value;
            && Mounted(v) && InRange(v.totalClusters, v.rootCluster) && v.totalClusters >= FAT32_FLOOR
            && partitionLba < v.fatStart && VolumeEnd(v) <= partitionLba + partitionSectors
            && v.fatStart == partitionLba + b.reserved && v.dataStart == v.fatStart + FatSectors(b)
  {
    MountedSpc(b, partitionLba, partitionSectors);
    hide And, PowerOfTwo, Quotient, Times, Wrap32, Wrap64, SectorsFor, Mount, TotalSectors;
    MountValue(b, partitionLba, partitionSectors);
    TimesAtLeast(b.fatSize, b.numFats);
    QuotientSmall(TotalSectors(b) - b.reserved - FatSectors(b), b.spc);
  }

  /** The 32-bit checks accept exactly the well-formed volumes. */
  lemma MountExact(b: Bpb, partitionLba: nat, partitionSectors: nat)
    requires Sized(b) && partitionLba + partitionSectors <= TWO64
    ensures Mount(b, partitionLba, partitionSectors).Some? <==> WellFormed(b, partitionSectors)
  {
    hide And, PowerOfTwo, Quotient, Times, Wrap32, Wrap64, SectorsFor, TotalSectors;
    if b.spc > 0 {
      OneBit(b.spc);
    }
    var total := TotalSectors(b);
    if FieldsOk(b) && b.reserved < total {
      QuotientBound(total - b.reserved, b.numFats, b.fatSize);
      if FatSectors(b) <= total - b.reserved {
        NoWrap(b);
        Rounded(Clusters(b) + 2, b.fatSize);
      }
    }
  }
}
