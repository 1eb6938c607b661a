/** Snapshot records and the ranking of snapshot files (types/snapshot.go). */
module Snapshot {
  import Lexicographic

  datatype Option<+T> = None | Some(value: T)

  const TWO_TO_THE_63: int := 0x8000_0000_0000_0000
  const TWO_TO_THE_64: int := 0x1_0000_0000_0000_0000

  type uint64 = x: int | 0 <= x < 0x1_0000_0000_0000_0000
  type byte = x: int | 0 <= x < 256

  /** A SHA-256 sized hash: an array of 32 bytes. */
  type Hash = h: seq<byte> | |h| == 32 witness seq(32, _ => 0)

  datatype SnapshotFile = SnapshotFile(
    fileName: string,
    downloadURL: string,
    slot: uint64,
    baseSlot: uint64,
    hash: Hash,
    ext: string,
    modTime: Option<int>,
    size: uint64)
  {
    predicate IsFull() {
      baseSlot == 0
    }
  }

  datatype SnapshotInfo = SnapshotInfo(
    slot: uint64,
    baseSlot: uint64,
    hash: Hash,
    files: seq<SnapshotFile>,
    totalSize: uint64)

  datatype SnapshotSource = SnapshotSource(
    info: SnapshotInfo,
    target: string,
    group: string,
    updatedAt: int)

  function ByteRank(b: byte): int {
    b
  }

  /** bytes.Compare. */
  function BytesCompare(a: seq<byte>, b: seq<byte>): int {
    Lexicographic.Compare(a, b, ByteRank)
  }

  function Compare(s: SnapshotFile, o: SnapshotFile): int {
    if s.slot < o.slot then -1
    else if s.slot > o.slot then 1
    else if s.baseSlot != 0 && o.baseSlot == 0 then -1
    else if s.baseSlot == 0 && o.baseSlot != 0 then 1
    else if s.baseSlot < o.baseSlot then -1
    else if s.baseSlot > o.baseSlot then 1
    else BytesCompare(s.hash, o.hash)
  }

  /** The fields that the ranking looks at. */
  datatype FileKey = FileKey(slot: uint64, baseSlot: uint64, hash: Hash)

  function KeyOf(f: SnapshotFile): FileKey {
    FileKey(f.slot, f.baseSlot, f.hash)
  }

  /** Compare ranks any two files, consistently in both directions, and ties exactly the files
      that agree on slot, base slot and hash. */
  lemma CompareIsTotalPreorder(a: SnapshotFile, b: SnapshotFile)
    ensures Compare(a, b) == -Compare(b, a)
    ensures Compare(a, b) == 0 <==> KeyOf(a) == KeyOf(b)
  {
    Lexicographic.IsOrder<byte>(a.hash, b.hash, ByteRank);
  }

  lemma CompareTransitive(a: SnapshotFile, b: SnapshotFile, c: SnapshotFile)
    requires Compare(a, b) >= 0 && Compare(b, c) >= 0
    ensures Compare(a, c) >= 0
  {
    if KeyOf(a).(hash := b.hash) == KeyOf(b) && KeyOf(b).(hash := c.hash) == KeyOf(c) {
      Lexicographic.Transitive<byte>(a.hash, b.hash, c.hash, ByteRank);
    }
  }

  /** At the first byte in which they differ, a has the greater one. */
  ghost predicate HashAbove(a: Hash, b: Hash) {
    exists k: nat :: k < 32 && a[..k] == b[..k] && a[k] > b[k]
  }

  lemma BytesCompareIff(a: Hash, b: Hash)
    ensures BytesCompare(a, b) > 0 <==> HashAbove(a, b)
  {
    var k := Lexicographic.FirstDifference<byte>(a, b, ByteRank);
    if HashAbove(a, b) {
      var j: nat :| j < 32 && a[..j] == b[..j] && a[j] > b[j];
      Lexicographic.DifferenceIsUnique(a, b, j, k);
    }
  }

  /** Compare is lexicographic on (slot, base slot, hash) once a full file's base slot is read as
      being above every slot number; a full file therefore beats every incremental of its slot. */
  lemma CompareIsLexicographic(a: SnapshotFile, b: SnapshotFile)
    ensures
      var baseA := if a.IsFull() then TWO_TO_THE_64 else a.baseSlot;
      var baseB := if b.IsFull() then TWO_TO_THE_64 else b.baseSlot;
      Compare(a, b) > 0 <==>
        || a.slot > b.slot
        || (a.slot == b.slot && baseA > baseB)
        || (a.slot == b.slot && baseA == baseB && HashAbove(a.hash, b.hash))
  {
    BytesCompareIff(a.hash, b.hash);
  }
}
