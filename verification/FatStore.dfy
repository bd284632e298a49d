/** The FAT entry store: a one-window write-back cache over packed entries that are
    mirrored in several copies on the device. It behaves as `x = Fat[i]` and
    `Fat[i] = v`. */
module FatStore {
  import opened FatFormat
  import Arith

  // The device contents after writing b at byte offset lbo.
  function Splice(d: seq<Byte>, lbo: nat, b: seq<Byte>): (r: seq<Byte>)
    requires lbo + |b| <= |d|
    ensures |r| == |d|
    ensures forall a :: 0 <= a < |d| ==> r[a] == if lbo <= a < lbo + |b| then b[a - lbo] else d[a]
  {
    d[..lbo] + b + d[lbo + |b|..]
  }

  // No byte outside the FAT copies differs.
  ghost predicate SameData(g: Geometry, d0: seq<Byte>, d1: seq<Byte>) {
    |d0| == |d1| && forall a :: 0 <= a < |d0| && !(g.firstFat <= a < g.rootLbo) ==> d1[a] == d0[a]
  }

  // Byte p of the k-th copy of the FAT.
  ghost function CopyByte(g: Geometry, d: seq<Byte>, k: nat, p: nat): Byte
    requires g.Valid() && |d| == g.deviceBytes && k < g.fats && p < g.bytesPerFat
  {
    CopyFits(g, k, g.fats);
    d[g.CopyLbo(k) + p]
  }

  // Entry i of a FAT given as raw bytes.
  function Entry(g: Geometry, fat: seq<Byte>, i: nat): Word
    requires g.Valid() && |fat| == g.bytesPerFat && i < g.clusters + 2
  {
    EntryVboMonotone(g.bits, i, g.clusters + 1);
    var vbo := EntryVbo(g.bits, i);
    Unpack(g.bits, i, fat[vbo], fat[vbo + 1])
  }

  // The map that the raw bytes of a FAT encode.
  ghost predicate Encodes(g: Geometry, fat: seq<Byte>, entries: seq<Word>)
    requires g.Valid() && |fat| == g.bytesPerFat
  {
    && |entries| == g.clusters + 2
    && forall i: nat {:trigger Entry(g, fat, i)} | i < g.clusters + 2 :: entries[i] == Entry(g, fat, i)
  }

  // A 16-bit entry is two bytes, the lower one first ...
  ghost predicate Two(fat: seq<Byte>, entries: seq<Word>, i: nat) {
    i < |entries| && 2 * i + 1 < |fat| && entries[i] as int == fat[2 * i] as int + 0x100 * fat[2 * i + 1] as int
  }

  // ... and two 12-bit entries are three bytes, likewise; the last entry may be alone.
  ghost predicate Three(fat: seq<Byte>, entries: seq<Word>, k: nat) {
    && 2 * k < |entries| && 3 * k + 1 < |fat| && entries[2 * k] < 0x1000
    && if 2 * k + 1 < |entries| then
         && 3 * k + 2 < |fat| && entries[2 * k + 1] < 0x1000
         && entries[2 * k] as int + 0x1000 * entries[2 * k + 1] as int
            == fat[3 * k] as int + 0x100 * fat[3 * k + 1] as int + 0x1_0000 * fat[3 * k + 2] as int
       else
         entries[2 * k] as int == fat[3 * k] as int + 0x100 * (fat[3 * k + 1] as int % 16)
  }

  /** The bytes of a FAT, in the layout of the format, are these entries. */
  ghost predicate LaidOut(bits: nat, fat: seq<Byte>, entries: seq<Word>) {
    if bits == 12 then forall k: nat | 2 * k < |entries| :: Three(fat, entries, k)
    else forall i: nat | i < |entries| :: Two(fat, entries, i)
  }

  // The three bytes of a pair, taken apart.
  lemma PairParts(b0: Byte, b1: Byte, b2: Byte)
    ensures var even, odd := (b0 + 0x100 * b1) % 0x1000, (b1 + 0x100 * b2) / 16;
            && even < 0x1000 && odd < 0x1000 && even == b0 + 0x100 * (b1 % 16)
            && even + 0x1000 * odd == b0 + 0x100 * b1 + 0x1_0000 * b2
  {
    Nibbles(b1);
    var h, l := b1 / 16, b1 % 16;
    Digit(h, 0x1000, b0 + 0x100 * l);
    Digit(h + 16 * b2, 16, l);
  }

  lemma PairUnique(e: int, o: int, e': int, o': int)
    requires 0 <= e < 0x1000 && 0 <= e' < 0x1000 && e + 0x1000 * o == e' + 0x1000 * o'
    ensures e == e' && o == o'
  {
  }

  // Where the pair 2k, 2k + 1 lies.
  lemma PairVbo(k: nat)
    ensures EntryVbo(12, 2 * k) == 3 * k && EntryVbo(12, 2 * k + 1) == 3 * k + 1
    ensures 2 * k % 2 == 0 && (2 * k + 1) % 2 == 1
  {
  }

  lemma PairSpelled(g: Geometry, fat: seq<Byte>, entries: seq<Word>, k: nat)
    requires g.Valid() && g.bits == 12 && |fat| == g.bytesPerFat && |entries| == g.clusters + 2 && 2 * k < |entries|
    ensures Three(fat, entries, k) <==>
            && entries[2 * k] == Entry(g, fat, 2 * k)
            && (2 * k + 1 < |entries| ==> entries[2 * k + 1] == Entry(g, fat, 2 * k + 1))
  {
    hide Arith.Times;
    PairVbo(k);
    EntryVboMonotone(12, 2 * k, g.clusters + 1);
    if 2 * k + 1 < |entries| {
      EntryVboMonotone(12, 2 * k + 1, g.clusters + 1);
      PairParts(fat[3 * k], fat[3 * k + 1], fat[3 * k + 2]);
      if Three(fat, entries, k) {
        PairUnique(entries[2 * k], entries[2 * k + 1], Entry(g, fat, 2 * k), Entry(g, fat, 2 * k + 1));
      }
    } else {
      PairParts(fat[3 * k], fat[3 * k + 1], 0);
    }
  }

  lemma WordSpelled(g: Geometry, fat: seq<Byte>, entries: seq<Word>, i: nat)
    requires g.Valid() && g.bits != 12 && |fat| == g.bytesPerFat && |entries| == g.clusters + 2 && i < |entries|
    ensures Two(fat, entries, i) <==> entries[i] == Entry(g, fat, i)
  {
    EntryVboMonotone(g.bits, i, g.clusters + 1);
  }

  /** The map that a FAT encodes is what its bytes spell. */
  lemma EncodingIsLayout(g: Geometry, fat: seq<Byte>, entries: seq<Word>)
    requires g.Valid() && |fat| == g.bytesPerFat && |entries| == g.clusters + 2
    ensures Encodes(g, fat, entries) <==> LaidOut(g.bits, fat, entries)
  {
    hide Geometry.Valid, Entry, Three, Two;
    if g.bits == 12 {
      forall k: nat | 2 * k < |entries|
        ensures Three(fat, entries, k) <==>
                && entries[2 * k] == Entry(g, fat, 2 * k)
                && (2 * k + 1 < |entries| ==> entries[2 * k + 1] == Entry(g, fat, 2 * k + 1))
      {
        PairSpelled(g, fat, entries, k);
      }
      if LaidOut(g.bits, fat, entries) {
        forall i: nat | i < |entries|
          ensures entries[i] == Entry(g, fat, i)
        {
          var k := i / 2;
          assert i == 2 * k || i == 2 * k + 1;
          assert Three(fat, entries, k);
        }
      }
    } else {
      forall i: nat | i < |entries|
        ensures Two(fat, entries, i) <==> entries[i] == Entry(g, fat, i)
      {
        WordSpelled(g, fat, entries, i);
      }
    }
  }

  /** Storing the packed word of entry i, in either packing, sets that entry of the
      map and no other. */
  lemma SetEntry(g: Geometry, fat: seq<Byte>, entries: seq<Word>, i: nat, v: Word, fat': seq<Byte>)
    requires g.Valid() && |fat| == g.bytesPerFat && i < g.clusters + 2
    requires EntryVbo(g.bits, i) + 1 < g.bytesPerFat
    requires var vbo := EntryVbo(g.bits, i);
             var w := Pack(g.bits, i, fat[vbo], fat[vbo + 1], v);
             fat' == fat[vbo := w % 0x100][vbo + 1 := w / 0x100]
    requires Encodes(g, fat, entries)
    ensures Encodes(g, fat', entries[i := Stored(g.bits, v)])
  {
    var vbo := EntryVbo(g.bits, i);
    UnpackPacked(g.bits, i, fat[vbo], fat[vbo + 1], v);
    forall j: nat | j < g.clusters + 2 && j != i
      ensures Entry(g, fat', j) == Entry(g, fat, j)
    {
      var u := EntryVbo(g.bits, j);
      EntryVboMonotone(g.bits, j, g.clusters + 1);
      UnpackOther(g.bits, i, j, fat[vbo], fat[vbo + 1], fat[u], fat[u + 1], v);
    }
  }

  // The first n copies of d hold `written` at vbo; the rest of the FAT area is as in d0.
  ghost predicate CopiesWritten(g: Geometry, d0: seq<Byte>, d: seq<Byte>, n: nat, vbo: nat, written: seq<Byte>)
    requires g.Valid() && |d0| == |d| == g.deviceBytes
  {
    && SameData(g, d0, d)
    && forall k: nat, p: nat | k < g.fats && p < g.bytesPerFat ::
        CopyByte(g, d, k, p) ==
        if k < n && vbo <= p < vbo + |written| then written[p - vbo] else CopyByte(g, d0, k, p)
  }

  lemma NothingWritten(g: Geometry, d: seq<Byte>, vbo: nat, written: seq<Byte>)
    requires g.Valid() && |d| == g.deviceBytes
    ensures CopiesWritten(g, d, d, 0, vbo, written)
  {
  }

  lemma WriteCopy(g: Geometry, d0: seq<Byte>, d: seq<Byte>, i: nat, vbo: nat, written: seq<Byte>)
    requires g.Valid() && |d0| == |d| == g.deviceBytes && i < g.fats && vbo + |written| <= g.bytesPerFat
    requires CopiesWritten(g, d0, d, i, vbo, written)
    ensures g.CopyLbo(i) + g.bytesPerFat <= g.rootLbo <= g.deviceBytes
    ensures CopiesWritten(g, d0, Splice(d, g.CopyLbo(i) + vbo, written), i + 1, vbo, written)
  {
    CopyFits(g, i, g.fats);
    if i > 0 { CopyFits(g, 0, i); }
    var d' := Splice(d, g.CopyLbo(i) + vbo, written);
    forall k: nat, p: nat | k < g.fats && p < g.bytesPerFat
      ensures CopyByte(g, d', k, p) ==
              if k == i && vbo <= p < vbo + |written| then written[p - vbo] else CopyByte(g, d, k, p)
    {
      WriteCopyByte(g, d, d', i, vbo, written, k, p);
    }
  }

  lemma WriteCopyByte(g: Geometry, d: seq<Byte>, d': seq<Byte>, i: nat, vbo: nat, written: seq<Byte>, k: nat, p: nat)
    requires g.Valid() && |d| == g.deviceBytes && i < g.fats && vbo + |written| <= g.bytesPerFat
    requires g.CopyLbo(i) + g.bytesPerFat <= g.deviceBytes
    requires d' == Splice(d, g.CopyLbo(i) + vbo, written)
    requires k < g.fats && p < g.bytesPerFat
    ensures CopyByte(g, d', k, p) ==
            if k == i && vbo <= p < vbo + |written| then written[p - vbo] else CopyByte(g, d, k, p)
  {
    CopyFits(g, k, g.fats);
    var lbo := g.CopyLbo(i) + vbo;
    if k < i { CopyFits(g, k, i); } else if i < k { CopyFits(g, i, k); }
    assert CopyByte(g, d', k, p) == d'[g.CopyLbo(k) + p];
  }

  lemma WindowOnDevice(g: Geometry, vbo: nat)
    requires g.Valid() && vbo < g.bytesPerFat && vbo % FAT_CACHE_SIZE == 0
    ensures vbo + g.firstFat + FAT_CACHE_SIZE <= g.deviceBytes
  {
    LastWindow(vbo, g.bytesPerFat);
  }

  lemma LastWindow(vbo: nat, size: nat)
    requires vbo < size && vbo % FAT_CACHE_SIZE == 0
    ensures vbo <= (size - 1) / FAT_CACHE_SIZE * FAT_CACHE_SIZE
  {
    assert vbo == vbo / FAT_CACHE_SIZE * FAT_CACHE_SIZE;
  }

  class FatStore {
    const g: Geometry
    const cachedFat: array<Byte>
    var disk: seq<Byte>
    var cached: bool              // CachedFat != NULL
    var cachedFatVbo: nat
    var cachedFatDirty: bool
    ghost const mirrored: bool    // the copies agreed when the volume was mounted
    ghost var bytes: seq<Byte>    // the FAT: what the window holds, else what the first copy holds
    ghost var Fat: seq<Word>      // the plain map this object stands for

    predicate InWindow(p: nat)
      reads this
    {
      cached && cachedFatVbo <= p < cachedFatVbo + FAT_CACHE_SIZE
    }

    ghost predicate Valid()
      reads this, cachedFat
    {
      && g.Valid() && |disk| == g.deviceBytes && cachedFat.Length == FAT_CACHE_SIZE
      && cachedFatVbo % FAT_CACHE_SIZE == 0
      && (cached ==> cachedFatVbo < g.bytesPerFat)
      && (cachedFatDirty ==> cached)
      && |bytes| == g.bytesPerFat
      && (forall p: nat | p < g.bytesPerFat && InWindow(p) :: bytes[p] == cachedFat[p - cachedFatVbo])
      && (forall p: nat | p < g.bytesPerFat && !(cachedFatDirty && InWindow(p)) :: bytes[p] == CopyByte(g, disk, 0, p))
      && Encodes(g, bytes, Fat)
      // All copies agree with the map, except inside a window still to be written back.
      && (mirrored ==> forall k: nat, p: nat | k < g.fats && p < g.bytesPerFat && !(cachedFatDirty && InWindow(p)) ::
            CopyByte(g, disk, k, p) == bytes[p])
    }

    constructor (g: Geometry, disk: seq<Byte>)
      requires g.Valid() && |disk| == g.deviceBytes
      ensures Valid() && this.g == g && this.disk == disk && !cachedFatDirty && fresh(cachedFat)
      ensures bytes == seq(g.bytesPerFat, p requires 0 <= p < g.bytesPerFat => CopyByte(g, disk, 0, p))
      ensures mirrored <==> forall k: nat, p: nat | k < g.fats && p < g.bytesPerFat ::
                CopyByte(g, disk, k, p) == CopyByte(g, disk, 0, p)
    {
      this.g, this.disk := g, disk;
      cachedFat := new Byte[FAT_CACHE_SIZE](_ => 0);
      cached, cachedFatVbo, cachedFatDirty := false, 0, false;
      mirrored := forall k: nat, p: nat | k < g.fats && p < g.bytesPerFat ::
        CopyByte(g, disk, k, p) == CopyByte(g, disk, 0, p);
      bytes := seq(g.bytesPerFat, p requires 0 <= p < g.bytesPerFat => CopyByte(g, disk, 0, p));
      Fat := seq(g.clusters + 2, i requires 0 <= i < g.clusters + 2 =>
        Entry(g, seq(g.bytesPerFat, p requires 0 <= p < g.bytesPerFat => CopyByte(g, disk, 0, p)), i));
    }

    method FlushFatEntries()
      requires Valid() && cached
      modifies this`disk, this`cachedFatDirty
      ensures Valid() && SameData(g, old(disk), disk) && !cachedFatDirty
      // Every copy now holds the map inside the window, and is as it was outside it.
      ensures forall k: nat, p: nat | k < g.fats && p < g.bytesPerFat ::
                CopyByte(g, disk, k, p) == if InWindow(p) then bytes[p] else CopyByte(g, old(disk), k, p)
    {
      var amountToWrite :=
        if cachedFatVbo + FAT_CACHE_SIZE <= g.bytesPerFat then FAT_CACHE_SIZE else g.bytesPerFat - cachedFatVbo;
      var written := cachedFat[..amountToWrite];
      WriteCopies(written);
      assert forall p: nat | p < g.bytesPerFat && InWindow(p) :: written[p - cachedFatVbo] == bytes[p];
      cachedFatDirty := false;
    }

    // Write the window to every copy of the FAT.
    method WriteCopies(written: seq<Byte>)
      requires g.Valid() && |disk| == g.deviceBytes && cachedFatVbo + |written| <= g.bytesPerFat
      modifies this`disk
      ensures |disk| == g.deviceBytes && CopiesWritten(g, old(disk), disk, g.fats, cachedFatVbo, written)
    {
      NothingWritten(g, disk, cachedFatVbo, written);
      hide CopiesWritten, CopyByte, Geometry.Valid, Geometry.CopyLbo;
      for i := 0 to g.fats
        invariant |disk| == g.deviceBytes
        invariant CopiesWritten(g, old(disk), disk, i, cachedFatVbo, written)
      {
        WriteCopy(g, old(disk), disk, i, cachedFatVbo, written);
        disk := Splice(disk, g.CopyLbo(i) + cachedFatVbo, written);
      }
    }

    // Turn the cache window to the piece of the FAT that holds byte vbo.
    method MapWindow(vbo: nat)
      requires Valid() && vbo < g.bytesPerFat
      modifies this`disk, this`cached, this`cachedFatVbo, this`cachedFatDirty, cachedFat
      ensures Valid() && SameData(g, old(disk), disk)
      ensures InWindow(vbo)
    {
      if !cached || vbo < cachedFatVbo || vbo + 1 > cachedFatVbo + FAT_CACHE_SIZE {
        if cachedFatDirty {
          FlushFatEntries();
        }
        ReadWindow(vbo / FAT_CACHE_SIZE * FAT_CACHE_SIZE);
      }
    }

    method ReadWindow(windowVbo: nat)
      requires Valid() && !cachedFatDirty && windowVbo < g.bytesPerFat && windowVbo % FAT_CACHE_SIZE == 0
      modifies this`cached, this`cachedFatVbo, cachedFat
      ensures Valid() && cached && cachedFatVbo == windowVbo
    {
      WindowOnDevice(g, windowVbo);
      cached, cachedFatVbo := true, windowVbo;
      forall k | 0 <= k < FAT_CACHE_SIZE {
        cachedFat[k] := disk[windowVbo + g.firstFat + k];
      }
      assert forall p: nat | p < g.bytesPerFat && InWindow(p) ::
          CopyByte(g, disk, 0, p) == cachedFat[p - cachedFatVbo];
    }

    method LookupFatEntry(fatIndex: nat) returns (fatEntry: Word)
      requires Valid() && fatIndex < g.clusters + 2
      modifies this`disk, this`cached, this`cachedFatVbo, this`cachedFatDirty, cachedFat
      ensures Valid() && SameData(g, old(disk), disk)
      ensures fatEntry == Fat[fatIndex] && LaidOut(g.bits, bytes, Fat)
    {
      EncodingIsLayout(g, bytes, Fat);
      var vbo := EntryVbo(g.bits, fatIndex);
      EntryVboMonotone(g.bits, fatIndex, g.clusters + 1);
      MapWindow(vbo);
      NoStraddle(g.bits, fatIndex, cachedFatVbo);
      var o := vbo - cachedFatVbo;
      assert Fat[fatIndex] == Entry(g, bytes, fatIndex);
      fatEntry := Unpack(g.bits, fatIndex, cachedFat[o], cachedFat[o + 1]);
    }

    method SetFatEntry(fatIndex: nat, fatEntry: Word)
      requires Valid() && fatIndex < g.clusters + 2
      modifies this, cachedFat
      ensures Valid() && SameData(g, old(disk), disk)
      ensures Fat == old(Fat)[fatIndex := if g.bits == 12 then fatEntry % 0x1000 else fatEntry]
      ensures LaidOut(g.bits, bytes, Fat)
    {
      var vbo := EntryVbo(g.bits, fatIndex);
      EntryVboMonotone(g.bits, fatIndex, g.clusters + 1);
      MapWindow(vbo);
      NoStraddle(g.bits, fatIndex, cachedFatVbo);
      var o := vbo - cachedFatVbo;
      StoreWord(fatIndex, o, fatEntry);
      EncodingIsLayout(g, bytes, Fat);
    }

    // Replace the word at offset o of the window and mark the window dirty.
    method StoreWord(fatIndex: nat, o: nat, fatEntry: Word)
      requires Valid() && fatIndex < g.clusters + 2 && cached
      requires EntryVbo(g.bits, fatIndex) == cachedFatVbo + o && o + 1 < FAT_CACHE_SIZE
      modifies this`cachedFatDirty, this`bytes, this`Fat, cachedFat
      ensures Valid()
      ensures Fat == old(Fat)[fatIndex := Stored(g.bits, fatEntry)]
    {
      EntryVboMonotone(g.bits, fatIndex, g.clusters + 1);
      var word := Pack(g.bits, fatIndex, cachedFat[o], cachedFat[o + 1], fatEntry);
      ghost var vbo := cachedFatVbo + o;
      assert bytes[vbo] == cachedFat[o] && bytes[vbo + 1] == cachedFat[o + 1];
      ghost var bytes' := bytes[vbo := word % 0x100][vbo + 1 := word / 0x100];
      ghost var fat' := Fat[fatIndex := Stored(g.bits, fatEntry)];
      SetEntry(g, bytes, Fat, fatIndex, fatEntry, bytes');
      PutWord(o, word, bytes', fat');
    }

    method PutWord(o: nat, word: Word, ghost bytes': seq<Byte>, ghost fat': seq<Word>)
      requires Valid() && cached && o + 1 < FAT_CACHE_SIZE && cachedFatVbo + o + 1 < g.bytesPerFat
      requires bytes' == bytes[cachedFatVbo + o := word % 0x100][cachedFatVbo + o + 1 := word / 0x100]
      requires Encodes(g, bytes', fat')
      modifies this`cachedFatDirty, this`bytes, this`Fat, cachedFat
      ensures Valid() && bytes == bytes' && Fat == fat' && cachedFatDirty
    {
      cachedFat[o] := word % 0x100;
      cachedFat[o + 1] := word / 0x100;
      cachedFatDirty := true;
      bytes, Fat := bytes', fat';
    }

    // Write to the data area of the device.
    method DiskWrite(lbo: nat, buffer: seq<Byte>)
      requires Valid() && g.rootLbo <= lbo && lbo + |buffer| <= |disk|
      modifies this`disk
      ensures Valid() && disk == Splice(old(disk), lbo, buffer)
    {
      disk := Splice(disk, lbo, buffer);
      forall k: nat, p: nat | k < g.fats && p < g.bytesPerFat
        ensures CopyByte(g, disk, k, p) == CopyByte(g, old(disk), k, p)
      {
        CopyFits(g, k, g.fats);
      }
    }

    method DiskRead(lbo: nat, byteCount: nat) returns (buffer: seq<Byte>)
      requires lbo + byteCount <= |disk|
      ensures buffer == disk[lbo..lbo + byteCount]
    {
      buffer := disk[lbo..lbo + byteCount];
    }
  }
}
