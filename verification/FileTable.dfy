/** Directory entries as they lie on disk, and the table of open files. */
module FileTable {
  import opened FatFormat

  datatype RawDirent = Dirent(
    name: seq<Byte>, attributes: Byte, middle: seq<Byte>, lastWrite: seq<Byte>,
    firstCluster: Word, fileSize: nat)
  {
    predicate Sized() {
      |name| == 11 && |middle| == 10 && |lastWrite| == 4 && fileSize < 0x1_0000_0000
    }
  }

  type Dirent = d: RawDirent | d.Sized()
    witness Dirent(seq(11, _ => 0), 0, seq(10, _ => 0), seq(4, _ => 0), 0, 0)

  const FAT_DIRENT_NEVER_USED: Byte := 0x00
  const FAT_DIRENT_DELETED: Byte := 0xe5
  const FAT_DIRENT_ATTR_READ_ONLY: Byte := 0x01
  const FAT_DIRENT_ATTR_VOLUME_ID: Byte := 0x08
  const FAT_DIRENT_ATTR_DIRECTORY: Byte := 0x10
  const FAT_DIRENT_ATTR_ARCHIVE: Byte := 0x20

  // A one-bit flag of an attribute byte.
  predicate FlagOn(flags: Byte, flag: Byte)
    requires flag > 0
  {
    flags / flag % 2 == 1
  }

  function Encode(d: Dirent): (r: seq<Byte>)
    ensures |r| == DIRENT_SIZE
  {
    d.name + [d.attributes] + d.middle + d.lastWrite
    + [d.firstCluster % 0x100, d.firstCluster / 0x100]
    + [d.fileSize % 0x100, d.fileSize / 0x100 % 0x100, d.fileSize / 0x1_0000 % 0x100, d.fileSize / 0x100_0000]
  }

  function TwoBytes(b0: Byte, b1: Byte): Word {
    b0 + 0x100 * b1
  }

  function FourBytes(b0: Byte, b1: Byte, b2: Byte, b3: Byte): (n: nat)
    ensures n < 0x1_0000_0000
  {
    b0 + 0x100 * b1 + 0x1_0000 * b2 + 0x100_0000 * b3
  }

  function Decode(b: seq<Byte>): Dirent
    requires |b| == DIRENT_SIZE
  {
    Dirent(b[..11], b[11], b[12..22], b[22..26], TwoBytes(b[26], b[27]),
           FourBytes(b[28], b[29], b[30], b[31]))
  }

  lemma DecodeEncode(d: Dirent)
    ensures Decode(Encode(d)) == d
  {
    var b := Encode(d);
    assert b[..11] == d.name && b[12..22] == d.middle && b[22..26] == d.lastWrite;
    BytesOf(d.fileSize);
  }

  lemma BytesOf(n: nat)
    requires n < 0x1_0000_0000
    ensures FourBytes(n % 0x100, n / 0x100 % 0x100, n / 0x1_0000 % 0x100, n / 0x100_0000) == n
  {
    assert n / 0x1_0000 == n / 0x100 / 0x100 && n / 0x100_0000 == n / 0x1_0000 / 0x100;
  }

  lemma EncodeDecode(b: seq<Byte>)
    requires |b| == DIRENT_SIZE
    ensures Encode(Decode(b)) == b
  {
    FourParts(b[28], b[29], b[30], b[31]);
  }

  lemma FourParts(b0: Byte, b1: Byte, b2: Byte, b3: Byte)
    ensures var n := FourBytes(b0, b1, b2, b3);
            n % 0x100 == b0 && n / 0x100 % 0x100 == b1 && n / 0x1_0000 % 0x100 == b2 && n / 0x100_0000 == b3
  {
    var m := b1 + 0x100 * b2 + 0x1_0000 * b3;
    Digit(m, 0x100, b0);
    Digit(b2 + 0x100 * b3, 0x100, b1);
    Digit(b2 + 0x100 * b3, 0x1_0000, b0 + 0x100 * b1);
    Digit(b3, 0x100, b2);
    Digit(b3, 0x100_0000, b0 + 0x100 * b1 + 0x1_0000 * b2);
  }

  /** The 32 bytes at l are this entry, field by field, numbers with their lower bytes
      first. */
  ghost predicate EntryAt(d: seq<Byte>, l: nat, e: Dirent) {
    && l + DIRENT_SIZE <= |d|
    && d[l..l + 11] == e.name && d[l + 11] == e.attributes && d[l + 12..l + 22] == e.middle
    && d[l + 22..l + 26] == e.lastWrite
    && e.firstCluster as int == d[l + 26] as int + 0x100 * d[l + 27] as int
    && e.fileSize as int == d[l + 28] as int + 0x100 * d[l + 29] as int + 0x1_0000 * d[l + 30] as int
                            + 0x100_0000 * d[l + 31] as int
  }

  lemma SubSlice(d: seq<Byte>, l: nat, i: nat, j: nat)
    requires l + DIRENT_SIZE <= |d| && i <= j <= DIRENT_SIZE
    ensures d[l..l + DIRENT_SIZE][i..j] == d[l + i..l + j]
  {
    var b := d[l..l + DIRENT_SIZE];
    forall k | 0 <= k < j - i
      ensures b[i..j][k] == d[l + i..l + j][k]
    {
      assert b[i + k] == d[l + (i + k)];
    }
  }

  // What is read from l is the entry there ...
  lemma DecodedAt(d: seq<Byte>, l: nat)
    requires l + DIRENT_SIZE <= |d|
    ensures EntryAt(d, l, Decode(d[l..l + DIRENT_SIZE]))
  {
    SubSlice(d, l, 0, 11);
    SubSlice(d, l, 12, 22);
    SubSlice(d, l, 22, 26);
  }

  // ... and what is written is.
  lemma EncodedAt(d: seq<Byte>, l: nat, e: Dirent)
    requires l + DIRENT_SIZE <= |d| && d[l..l + DIRENT_SIZE] == Encode(e)
    ensures EntryAt(d, l, e)
  {
    hide Encode, Decode;
    DecodeEncode(e);
    DecodedAt(d, l);
  }

  /** One slot of the table: the file position, and the location and an in-memory
      copy of the file's directory entry. A location of zero is the root directory. */
  datatype FileEntry = FileEntry(position: nat, direntLbo: nat, dirent: Dirent)

  predicate IsDirectory(f: FileEntry) {
    FlagOn(f.dirent.attributes, FAT_DIRENT_ATTR_DIRECTORY)
  }
}
