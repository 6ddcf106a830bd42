/** What the disjoint extents are for: writing one file leaves the maps, the inodes and every other
    file alone (fs/read_write.c on the layout of fs/main.c and fs/open.c). */
module FileIsolation {
  import opened Disks
  import opened BitMaps
  import opened SectorMap
  import opened FileMaps
  import opened ReadWrite

  /** The bytes of extent e. */
  ghost function ExtentBytes(d: seq<byte>, sb: SuperBlock, e: nat): seq<byte>
    requires StartSect(sb, e) * 512 + 0x10_0000 <= |d|
  {
    d[StartSect(sb, e) * 512..StartSect(sb, e) * 512 + 0x10_0000]
  }

  /** Nothing before the data sectors, and no extent but e, differs. */
  ghost predicate OnlyExtent(d: seq<byte>, d': seq<byte>, sb: SuperBlock, e: nat) {
    && |d'| == |d| && sb.FirstSect() * 512 <= |d|
    && d'[..sb.FirstSect() * 512] == d[..sb.FirstSect() * 512]
    && forall g: nat :: g != e && StartSect(sb, g) * 512 + 0x10_0000 <= |d| ==> ExtentBytes(d', sb, g) == ExtentBytes(d, sb, g)
  }

  lemma PatchOutside(d: seq<byte>, a: nat, s: seq<byte>, lo: nat, hi: nat)
    requires a + |s| <= |d| && lo <= hi <= |d| && (hi <= a || a + |s| <= lo)
    ensures Patch(d, a, s)[lo..hi] == d[lo..hi]
  {
  }

  lemma PatchOnlyExtent(d: seq<byte>, sb: SuperBlock, e: nat, p: nat, s: seq<byte>)
    requires p + |s| <= 0x10_0000 && StartSect(sb, e) * 512 + p + |s| <= |d|
    ensures OnlyExtent(d, Patch(d, StartSect(sb, e) * 512 + p, s), sb, e)
  {
    var a := StartSect(sb, e) * 512 + p;
    var d' := Patch(d, a, s);
    PatchOutside(d, a, s, 0, sb.FirstSect() * 512);
    forall g: nat | g != e && StartSect(sb, g) * 512 + 0x10_0000 <= |d| ensures ExtentBytes(d', sb, g) == ExtentBytes(d, sb, g) {
      var lo := StartSect(sb, g) * 512;
      assert g < e || g >= e + 1;
      PatchOutside(d, a, s, lo, lo + 0x10_0000);
    }
  }

  /** The maps lie before the data sectors. */
  lemma MapsKept(d: seq<byte>, d': seq<byte>, sb: SuperBlock, files: map<nat, nat>, e: nat)
    requires MapInv(d, sb, files) && OnlyExtent(d, d', sb, e)
    ensures MapInv(d', sb, files)
  {
    var n := sb.FirstSect() * 512;
    assert forall i :: 0 <= i < n ==> d'[i] == d'[..n][i] == d[..n][i] == d[i];
    forall t: nat, j: nat | t < SECTOR_SIZE && j < 8
      ensures MapBit(d', IMAP_BYTE, t, j) == (8 * t + j < NR_CONSOLES + 2 || 8 * t + j in files)
    {
      assert MapBit(d, IMAP_BYTE, t, j) == (8 * t + j < NR_CONSOLES + 2 || 8 * t + j in files);
      assert MapBit(d', IMAP_BYTE, t, j) == MapBit(d, IMAP_BYTE, t, j);
    }
    forall t: nat, j: nat | t < sb.nrSmapSects * SECTOR_SIZE && j < 8
      ensures MapBit(d', sb.SmapByte(), t, j) == MapBit(d, sb.SmapByte(), t, j)
    {
    }
  }

  /** Bytes put inside the extent of file k leave the other files and both maps as they are. */
  lemma WriteIsLocal(d: seq<byte>, sb: SuperBlock, files: map<nat, nat>, k: nat, p: nat, s: seq<byte>)
    requires MapInv(d, sb, files) && k in files && p + |s| <= 0x10_0000 && StartSect(sb, files[k]) * 512 + p + |s| <= |d|
    ensures var d' := Patch(d, StartSect(sb, files[k]) * 512 + p, s);
      && MapInv(d', sb, files) && OnlyExtent(d, d', sb, files[k])
      && forall l :: l in files && l != k && StartSect(sb, files[l]) * 512 + 0x10_0000 <= |d| ==>
           ExtentBytes(d', sb, files[l]) == ExtentBytes(d, sb, files[l])
  {
    var d' := Patch(d, StartSect(sb, files[k]) * 512 + p, s);
    PatchOnlyExtent(d, sb, files[k], p, s);
    MapsKept(d, d', sb, files, files[k]);
  }

  /** A write to file k inside its extent: the file has the new bytes, both maps are still those of
      the files, the inode area is untouched, and so is every other file and the root directory. */
  method WriteFile(d: Disk, sb: SuperBlock, ghost files: map<nat, nat>, ghost k: nat, f: OpenFile, buf: array<byte>, len: nat)
    returns (f': OpenFile)
    requires d.Valid() && buf != d.data && buf != d.fsbuf && len <= buf.Length && f.readWrite
    requires MapInv(d.data[..], sb, files) && k in files && f.start == StartSect(sb, files[k]) && f.nrSects == 2048
    requires f.pos + len <= 0x10_0000 && OnDisk(f, WRITE, len, d.data.Length) && f.Address(0x10_0000) <= d.data.Length
    modifies d.data, d.fsbuf, buf
    ensures d.data[..] == Patch(old(d.data[..]), f.Address(f.pos), old(buf[..])[..len])
    ensures f'.pos == f.pos + len && f'.size == if f.pos + len > f.size then f.pos + len else f.size
    ensures MapInv(d.data[..], sb, files) && OnlyExtent(old(d.data[..]), d.data[..], sb, files[k])
    ensures forall l :: l in files && l != k && StartSect(sb, files[l]) * 512 + 0x10_0000 <= d.data.Length ==>
      ExtentBytes(d.data[..], sb, files[l]) == ExtentBytes(old(d.data[..]), sb, files[l])
  {
    WriteIsLocal(d.data[..], sb, files, k, f.pos, buf[..][..len]);
    f' := WriteInside(d, f, buf, len);
  }

  method WriteInside(d: Disk, f: OpenFile, buf: array<byte>, len: nat) returns (f': OpenFile)
    requires d.Valid() && buf != d.data && buf != d.fsbuf && len <= buf.Length && f.readWrite && f.nrSects == 2048
    requires f.pos + len <= 0x10_0000 && OnDisk(f, WRITE, len, d.data.Length) && f.Address(0x10_0000) <= d.data.Length
    modifies d.data, d.fsbuf, buf
    ensures d.data[..] == Patch(old(d.data[..]), f.Address(f.pos), old(buf[..])[..len])
    ensures f'.pos == f.pos + len && f'.size == if f.pos + len > f.size then f.pos + len else f.size
  {
    MovesWhatFits(f, WRITE, len);
    var r, g, grown := DoRdwt(d, f, WRITE, buf, len);
    f' := g;
  }
}
