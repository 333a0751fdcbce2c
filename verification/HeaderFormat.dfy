/**
 The volume header on disk: 64 bytes of salt, then 448 bytes holding big-endian fields, a
 reserved area, two checksums and the master key data.
 */
module HeaderFormat {
  import opened Bytes
  import opened Crc32

  const SALT_SIZE := 64
  const ENCRYPTED_SIZE := 448
  const EFFECTIVE_SIZE := 512
  const SLOT_SIZE := 65536
  const KEYDATA_SIZE := 256

  const VOLUME_MAGIC: u32 := 0x56455241

  // Offsets in the 448-byte area.
  const KEY_AREA_CRC := 8
  const RESERVED := 68
  const HEADER_CRC := 188
  const MASTER_KEYDATA := 192

  type Salt = s: seq<byte> | |s| == SALT_SIZE witness Zeros(SALT_SIZE)

  datatype VolumeHeader = VolumeHeader(
    salt: Salt,
    magic: u32,
    headerVersion: u16,
    requiredVersion: u16,
    keyAreaCrc: u32,
    volumeCreationTime: u64,
    modificationTime: u64,
    hiddenVolumeSize: u64,
    volumeSize: u64,
    encryptedAreaStart: u64,
    encryptedAreaLength: u64,
    flags: u32,
    sectorSize: u32,
    masterKeydata: seq<byte>,
    headerCrc: u32)

  datatype FormatError =
    | InvalidHeaderSize(expectedSize: nat, actualSize: nat)
    | InvalidMagic(expectedMagic: u32, actualMagic: u32)
    | InvalidCrc(expectedCrc: u32, actualCrc: u32)

  predicate ValidSectorSize(n: u32) {
    512 <= n <= 4096 && n % 512 == 0
  }

  // ------------------------------------------------------------------ the numbered fields

  /** Where field `i` of the twelve leading fields starts; field 12 is the reserved area. */
  function Offset(i: nat): (r: nat)
    requires i <= 12
    ensures r <= RESERVED
  {
    if i < 5 then (if i == 0 then 0 else if i == 1 then 4 else if i == 2 then 6 else if i == 3 then 8 else 12)
    else if i < 11 then 20 + 8 * (i - 5)
    else if i == 11 then 64
    else 68
  }

  function Width(i: nat): (w: nat)
    requires i < 12
    ensures Offset(i) + w == Offset(i + 1)
  {
    Offset(i + 1) - Offset(i)
  }

  lemma FieldSizes()
    ensures Pow256(2) == 0x1_0000 && Pow256(4) == TWO_32 && Pow256(8) == TWO_64
  {
  }

  /** The leading fields in disk order, with `keyCrc` for the key area's checksum. */
  function Values(h: VolumeHeader, keyCrc: u32): (v: seq<nat>)
    ensures |v| == 12
    ensures forall i :: 0 <= i < 12 ==> v[i] < Pow256(Width(i))
  {
    FieldSizes();
    [h.magic, h.headerVersion, h.requiredVersion, keyCrc, h.volumeCreationTime, h.modificationTime,
     h.hiddenVolumeSize, h.volumeSize, h.encryptedAreaStart, h.encryptedAreaLength, h.flags, h.sectorSize]
  }

  /** The first `n` fields as bytes. */
  function Pack(v: seq<nat>, n: nat): (r: seq<byte>)
    requires |v| == 12 && n <= 12
    ensures |r| == Offset(n)
  {
    if n == 0 then [] else Pack(v, n - 1) + BeBytes(v[n - 1], Width(n - 1))
  }

  lemma {:induction false} PackedAt(v: seq<nat>, n: nat, i: nat)
    requires |v| == 12 && i < n <= 12
    ensures Offset(i) <= Offset(i + 1) <= Offset(n)
    ensures Pack(v, n)[Offset(i)..Offset(i + 1)] == BeBytes(v[i], Width(i))
  {
    var last := BeBytes(v[n - 1], Width(n - 1));
    if i < n - 1 {
      PackedAt(v, n - 1, i);
      SliceOfPrefix(Pack(v, n - 1), last, Offset(i), Offset(i + 1));
    } else {
      SliceOfEnd(Pack(v, n - 1), last);
    }
  }

  lemma SliceOfEnd(a: seq<byte>, b: seq<byte>)
    ensures (a + b)[|a|..|a| + |b|] == b
  {
  }

  lemma SliceOfPrefix(a: seq<byte>, b: seq<byte>, lo: nat, hi: nat)
    requires lo <= hi <= |a|
    ensures (a + b)[lo..hi] == a[lo..hi]
  {
  }

  lemma {:induction false} PackUpdate(v: seq<nat>, n: nat, i: nat, x: nat)
    requires |v| == 12 && i < 12 && n <= 12
    ensures i >= n ==> Pack(v[i := x], n) == Pack(v, n)
    ensures i < n ==> Offset(i) + Width(i) <= Offset(n)
    ensures i < n ==> Pack(v[i := x], n) == Splice(Pack(v, n), Offset(i), BeBytes(x, Width(i)))
  {
    if n > 0 {
      PackUpdate(v, n - 1, i, x);
      var last, field := BeBytes(v[n - 1], Width(n - 1)), BeBytes(x, Width(i));
      if i == n - 1 {
        SpliceLast(Pack(v, i), last, field);
      } else if i < n - 1 {
        SplicePrefix(Pack(v, n - 1), last, Offset(i), field);
      }
    }
  }

  lemma SpliceLast(a: seq<byte>, b: seq<byte>, d: seq<byte>)
    requires |b| == |d|
    ensures Splice(a + b, |a|, d) == a + d
  {
  }

  lemma SplicePrefix(a: seq<byte>, b: seq<byte>, off: nat, d: seq<byte>)
    requires off + |d| <= |a|
    ensures Splice(a + b, off, d) == Splice(a, off, d) + b
  {
  }

  /** The leading fields read back from an area. */
  function Unpacked(area: seq<byte>): (v: seq<nat>)
    requires |area| >= RESERVED
    ensures |v| == 12
    ensures forall i :: 0 <= i < 12 ==> v[i] == BeValue(area[Offset(i)..Offset(i + 1)])
  {
    seq(12, i requires 0 <= i < 12 => BeValue(area[Offset(i)..Offset(i + 1)]))
  }

  lemma {:induction false} Repacked(area: seq<byte>, n: nat)
    requires n <= 12 && |area| >= RESERVED
    ensures Pack(Unpacked(area), n) == area[..Offset(n)]
  {
    hide Offset, BeValue, BeBytes;
    if n == 0 {
      FieldsStartAtZero();
    } else {
      Repacked(area, n - 1);
      assert Offset(n - 1) + Width(n - 1) == Offset(n);
      var field := area[Offset(n - 1)..Offset(n)];
      BeBytesOfValue(field);
      assert area[..Offset(n)] == area[..Offset(n - 1)] + field;
    }
  }

  lemma FieldsStartAtZero()
    ensures Offset(0) == 0
  {
  }

  // ------------------------------------------------------------------ printing

  /** Key data cut to the size of its area, or padded with zeros. */
  function PaddedKey(key: seq<byte>): (r: seq<byte>)
    ensures |r| == KEYDATA_SIZE
    ensures |key| == KEYDATA_SIZE ==> r == key
  {
    if |key| <= KEYDATA_SIZE then key + Zeros(KEYDATA_SIZE - |key|) else key[..KEYDATA_SIZE]
  }

  /** The part of the area the header checksum covers. */
  function Front(v: seq<nat>): (r: seq<byte>)
    requires |v| == 12
    ensures |r| == HEADER_CRC
  {
    Pack(v, 12) + Zeros(HEADER_CRC - RESERVED)
  }

  function Area(h: VolumeHeader): (r: seq<byte>)
    ensures |r| == ENCRYPTED_SIZE
  {
    var key := PaddedKey(h.masterKeydata);
    var front := Front(Values(h, Checksum(key)));
    front + BeBytes(Checksum(front), 4) + key
  }

  function Printed(h: VolumeHeader): (r: seq<byte>)
    ensures |r| == EFFECTIVE_SIZE
  {
    h.salt + Area(h)
  }

  /** A header slot: the printed header and zeros. */
  function PrintedSlot(h: VolumeHeader): (r: seq<byte>)
    ensures |r| == SLOT_SIZE
  {
    Printed(h) + Zeros(SLOT_SIZE - EFFECTIVE_SIZE)
  }

  method WriteField(enc: seq<byte>, value: nat, width: nat, ghost v: seq<nat>, ghost n: nat) returns (r: seq<byte>)
    requires |v| == 12 && n < 12 && v[n] == value && Width(n) == width && enc == Pack(v, n)
    ensures r == Pack(v, n + 1)
  {
    r := enc + BeBytes(value, width);
  }

  method PadTo(enc: seq<byte>, size: nat) returns (r: seq<byte>)
    requires |enc| <= size
    ensures r == enc + Zeros(size - |enc|)
  {
    r := enc;
    while |r| < size
      invariant |enc| <= |r| <= size
      invariant r == enc + Zeros(|r| - |enc|)
    {
      r := r + [0];
    }
  }

  /** The twelve leading fields, with zero for the key area's checksum. */
  method WriteFields(h: VolumeHeader) returns (enc: seq<byte>)
    ensures enc == Pack(Values(h, 0), 12)
  {
    hide Pack, BeBytes, Pow256;
    ghost var v := Values(h, 0);
    PackNothing(v);
    enc := WriteField([], h.magic, 4, v, 0);
    enc := WriteField(enc, h.headerVersion, 2, v, 1);
    enc := WriteField(enc, h.requiredVersion, 2, v, 2);
    enc := WriteField(enc, 0, 4, v, 3);
    enc := WriteField(enc, h.volumeCreationTime, 8, v, 4);
    enc := WriteField(enc, h.modificationTime, 8, v, 5);
    enc := WriteGeometry(enc, h);
  }

  method WriteGeometry(start: seq<byte>, h: VolumeHeader) returns (enc: seq<byte>)
    requires start == Pack(Values(h, 0), 6)
    ensures enc == Pack(Values(h, 0), 12)
  {
    hide Pack, BeBytes, Pow256;
    ghost var v := Values(h, 0);
    enc := WriteField(start, h.hiddenVolumeSize, 8, v, 6);
    enc := WriteField(enc, h.volumeSize, 8, v, 7);
    enc := WriteField(enc, h.encryptedAreaStart, 8, v, 8);
    enc := WriteField(enc, h.encryptedAreaLength, 8, v, 9);
    enc := WriteField(enc, h.flags, 4, v, 10);
    enc := WriteField(enc, h.sectorSize, 4, v, 11);
  }

  lemma PackNothing(v: seq<nat>)
    requires |v| == 12
    ensures Pack(v, 0) == []
  {
  }

  /** Appends the fields, pads, and appends the key data, leaving zeros for both checksums. */
  method WriteArea(h: VolumeHeader) returns (enc: seq<byte>)
    ensures enc == Front(Values(h, 0)) + (BeBytes(0, 4) + PaddedKey(h.masterKeydata))
  {
    hide Pack, Values, BeBytes;
    enc := WriteFields(h);
    enc := PadTo(enc, HEADER_CRC);
    ghost var front := Front(Values(h, 0));
    enc := enc + BeBytes(0, 4);
    enc := PadTo(enc, MASTER_KEYDATA);
    assert enc == front + BeBytes(0, 4);
    var kdStart := |enc|;
    enc := enc + h.masterKeydata[..Min(|h.masterKeydata|, KEYDATA_SIZE)];
    enc := PadTo(enc, kdStart + KEYDATA_SIZE);
    assert enc == front + (BeBytes(0, 4) + PaddedKey(h.masterKeydata));
  }

  /** Patches the two checksums into the places left for them, the key area's first since the
      other one covers it. */
  method SerializeHeader(h: VolumeHeader) returns (buf: seq<byte>)
    ensures buf == Printed(h)
  {
    hide Pack, Checksum, Values, Front, Splice;
    var enc := WriteArea(h);
    ghost var key, blank := PaddedKey(h.masterKeydata), BeBytes(0, 4);
    var keyCrc := Checksum(enc[MASTER_KEYDATA..]);
    assert enc[MASTER_KEYDATA..] == key;
    enc := Splice(enc, KEY_AREA_CRC, BeBytes(keyCrc, 4));
    PatchKeyCrc(h, keyCrc, blank + key);
    ghost var front := Front(Values(h, keyCrc));
    var headerCrc := Checksum(enc[..HEADER_CRC]);
    assert enc[..HEADER_CRC] == front && enc == front + blank + key;
    enc := Splice(enc, HEADER_CRC, BeBytes(headerCrc, 4));
    SpliceOfThree(front, blank, key, BeBytes(headerCrc, 4));
    buf := h.salt + enc;
  }

  lemma PatchKeyCrc(h: VolumeHeader, keyCrc: u32, rest: seq<byte>)
    ensures Splice(Front(Values(h, 0)) + rest, KEY_AREA_CRC, BeBytes(keyCrc, 4)) == Front(Values(h, keyCrc)) + rest
  {
    hide Pack;
    var v, field, zeros := Values(h, 0), BeBytes(keyCrc, 4), Zeros(HEADER_CRC - RESERVED);
    assert Values(h, keyCrc) == v[3 := keyCrc];
    PackUpdate(v, 12, 3, keyCrc);
    SplicePrefix(Pack(v, 12), zeros, KEY_AREA_CRC, field);
    SplicePrefix(Front(v), rest, KEY_AREA_CRC, field);
  }

  method SerializeHeaderFull(h: VolumeHeader) returns (full: seq<byte>)
    ensures full == PrintedSlot(h)
  {
    var effective := SerializeHeader(h);
    full := Splice(Zeros(SLOT_SIZE), 0, effective);
  }

  // ------------------------------------------------------------------ parsing

  function U16At(s: seq<byte>, at: nat): u16
    requires at + 2 <= |s|
  {
    FieldSizes();
    BeBytesOfValue(s[at..at + 2]);
    BeValue(s[at..at + 2])
  }

  function U32At(s: seq<byte>, at: nat): u32
    requires at + 4 <= |s|
  {
    FieldSizes();
    BeBytesOfValue(s[at..at + 4]);
    BeValue(s[at..at + 4])
  }

  function U64At(s: seq<byte>, at: nat): u64
    requires at + 8 <= |s|
  {
    FieldSizes();
    BeBytesOfValue(s[at..at + 8]);
    BeValue(s[at..at + 8])
  }

  /** The checks in order: size, magic, sector size, header checksum, key area checksum. */
  function Parse(data: seq<byte>): Result<VolumeHeader, FormatError> {
    if |data| < EFFECTIVE_SIZE then Err(InvalidHeaderSize(EFFECTIVE_SIZE, |data|)) else
      var enc := data[SALT_SIZE..EFFECTIVE_SIZE];
      var magic, sectorSize := U32At(enc, 0), U32At(enc, 64);
      var storedCrc, keyCrc := U32At(enc, HEADER_CRC), U32At(enc, KEY_AREA_CRC);
      var headerCrc, computedKeyCrc := Checksum(enc[..HEADER_CRC]), Checksum(enc[MASTER_KEYDATA..]);
      if magic != VOLUME_MAGIC then Err(InvalidMagic(VOLUME_MAGIC, magic))
      else if !ValidSectorSize(sectorSize) then Err(InvalidHeaderSize(512, sectorSize))
      else if storedCrc != headerCrc then Err(InvalidCrc(headerCrc, storedCrc))
      else if keyCrc != computedKeyCrc then Err(InvalidCrc(computedKeyCrc, keyCrc))
      else Ok(Fields(data[..SALT_SIZE], enc))
  }

  /** The header an area holds, checks aside. */
  function Fields(salt: Salt, enc: seq<byte>): VolumeHeader
    requires |enc| == ENCRYPTED_SIZE
  {
    VolumeHeader(salt, U32At(enc, 0), U16At(enc, 4), U16At(enc, 6), U32At(enc, 8), U64At(enc, 12), U64At(enc, 20),
                 U64At(enc, 28), U64At(enc, 36), U64At(enc, 44), U64At(enc, 52), U32At(enc, 60), U32At(enc, 64),
                 enc[MASTER_KEYDATA..], U32At(enc, HEADER_CRC))
  }

  method ReadU16(enc: seq<byte>, position: nat) returns (v: u16, next: nat)
    requires position + 2 <= |enc|
    ensures v == U16At(enc, position) && next == position + 2
  {
    return U16At(enc, position), position + 2;
  }

  method ReadU32(enc: seq<byte>, position: nat) returns (v: u32, next: nat)
    requires position + 4 <= |enc|
    ensures v == U32At(enc, position) && next == position + 4
  {
    return U32At(enc, position), position + 4;
  }

  method ReadU64(enc: seq<byte>, position: nat) returns (v: u64, next: nat)
    requires position + 8 <= |enc|
    ensures v == U64At(enc, position) && next == position + 8
  {
    return U64At(enc, position), position + 8;
  }

  /** Reads the fields one after another from a moving position, which is then set to the
      stored header checksum. */
  method DeserializeHeader(data: seq<byte>) returns (r: Result<VolumeHeader, FormatError>)
    ensures r == Parse(data)
  {
    hide U16At, U32At, U64At, Checksum;
    if |data| < EFFECTIVE_SIZE {
      return Err(InvalidHeaderSize(EFFECTIVE_SIZE, |data|));
    }
    var salt, enc := data[..SALT_SIZE], data[SALT_SIZE..EFFECTIVE_SIZE];
    var position := 0;
    var magic: u32, version: u16, required: u16, keyCrc: u32;
    magic, position := ReadU32(enc, position);
    if magic != VOLUME_MAGIC {
      return Err(InvalidMagic(VOLUME_MAGIC, magic));
    }
    version, position := ReadU16(enc, position);
    required, position := ReadU16(enc, position);
    keyCrc, position := ReadU32(enc, position);
    var creation: u64, modification: u64, hidden: u64, size: u64, start: u64, length: u64, flags: u32, sector: u32;
    creation, position := ReadU64(enc, position);
    modification, position := ReadU64(enc, position);
    hidden, position := ReadU64(enc, position);
    size, position := ReadU64(enc, position);
    start, position := ReadU64(enc, position);
    length, position := ReadU64(enc, position);
    flags, position := ReadU32(enc, position);
    sector, position := ReadU32(enc, position);
    if sector < 512 || sector > 4096 || sector % 512 != 0 {
      return Err(InvalidHeaderSize(512, sector));
    }
    position := HEADER_CRC;
    var storedCrc: u32;
    storedCrc, position := ReadU32(enc, position);
    var computedCrc := Checksum(enc[..HEADER_CRC]);
    if storedCrc != computedCrc {
      return Err(InvalidCrc(computedCrc, storedCrc));
    }
    var keydata := enc[MASTER_KEYDATA..MASTER_KEYDATA + KEYDATA_SIZE];
    assert keydata == enc[MASTER_KEYDATA..];
    var computedKeyCrc := Checksum(enc[MASTER_KEYDATA..]);
    if keyCrc != computedKeyCrc {
      return Err(InvalidCrc(computedKeyCrc, keyCrc));
    }
    return Ok(VolumeHeader(salt, VOLUME_MAGIC, version, required, keyCrc, creation, modification, hidden, size,
                           start, length, flags, sector, keydata, storedCrc));
  }

  // ------------------------------------------------------------------ the round trips

  /** A header as it comes back: checksums recomputed, key data cut or padded. */
  function Normalized(h: VolumeHeader): VolumeHeader {
    var key := PaddedKey(h.masterKeydata);
    var keyCrc := Checksum(key);
    h.(keyAreaCrc := keyCrc, masterKeydata := key, headerCrc := Checksum(Front(Values(h, keyCrc))))
  }

  lemma BeFieldAt(area: seq<byte>, lo: nat, hi: nat, n: nat)
    requires lo <= hi <= |area| && n < Pow256(hi - lo)
    requires area[lo..hi] == BeBytes(n, hi - lo)
    ensures BeValue(area[lo..hi]) == n
  {
    BeRoundTrip(n, hi - lo);
  }

  lemma FieldOfPrinted(v: seq<nat>, rest: seq<byte>, i: nat)
    requires |v| == 12 && i < 12 && v[i] < Pow256(Width(i))
    ensures Offset(i) <= Offset(i + 1) <= |Pack(v, 12) + rest|
    ensures BeValue((Pack(v, 12) + rest)[Offset(i)..Offset(i + 1)]) == v[i]
  {
    hide Pack, BeValue, BeBytes, Pow256;
    PackedAt(v, 12, i);
    SliceOfPrefix(Pack(v, 12), rest, Offset(i), Offset(i + 1));
    BeFieldAt(Pack(v, 12) + rest, Offset(i), Offset(i + 1), v[i]);
  }

  /** The parts of a printed area. */
  lemma AreaParts(h: VolumeHeader)
    ensures var a, key := Area(h), PaddedKey(h.masterKeydata);
            var front := Front(Values(h, Checksum(key)));
            && a[..HEADER_CRC] == front
            && a[HEADER_CRC..HEADER_CRC + 4] == BeBytes(Checksum(front), 4)
            && a[MASTER_KEYDATA..] == key
            && a == Pack(Values(h, Checksum(key)), 12) + a[RESERVED..]
  {
    hide Pack, Values, BeBytes, Checksum;
  }

  lemma NumberAt(enc: seq<byte>, at: nat, i: nat)
    requires |enc| == ENCRYPTED_SIZE && i < 12 && Offset(i) == at
    ensures Width(i) == 2 ==> U16At(enc, at) == Unpacked(enc)[i]
    ensures Width(i) == 4 ==> U32At(enc, at) == Unpacked(enc)[i]
    ensures Width(i) == 8 ==> U64At(enc, at) == Unpacked(enc)[i]
  {
    hide BeValue;
  }

  lemma NumbersAt(enc: seq<byte>)
    requires |enc| == ENCRYPTED_SIZE
    ensures var h, v := Fields(Zeros(SALT_SIZE), enc), Unpacked(enc);
            && h.magic == v[0] && h.headerVersion == v[1] && h.requiredVersion == v[2] && h.keyAreaCrc == v[3]
            && h.volumeCreationTime == v[4] && h.modificationTime == v[5] && h.hiddenVolumeSize == v[6]
            && h.volumeSize == v[7] && h.encryptedAreaStart == v[8] && h.encryptedAreaLength == v[9]
            && h.flags == v[10] && h.sectorSize == v[11]
  {
    hide U16At, U32At, U64At, Unpacked;
    NumberAt(enc, 0, 0);
    NumberAt(enc, 4, 1);
    NumberAt(enc, 6, 2);
    NumberAt(enc, 8, 3);
    NumberAt(enc, 12, 4);
    NumberAt(enc, 20, 5);
    NumberAt(enc, 28, 6);
    NumberAt(enc, 36, 7);
    NumberAt(enc, 44, 8);
    NumberAt(enc, 52, 9);
    NumberAt(enc, 60, 10);
    NumberAt(enc, 64, 11);
  }

  lemma NumbersOf(h: VolumeHeader, keyCrc: u32)
    ensures var v := Values(h, keyCrc);
            && h.magic == v[0] && h.headerVersion == v[1] && h.requiredVersion == v[2] && keyCrc == v[3]
            && h.volumeCreationTime == v[4] && h.modificationTime == v[5] && h.hiddenVolumeSize == v[6]
            && h.volumeSize == v[7] && h.encryptedAreaStart == v[8] && h.encryptedAreaLength == v[9]
            && h.flags == v[10] && h.sectorSize == v[11]
  {
  }

  lemma UnpackedArea(h: VolumeHeader)
    ensures Unpacked(Area(h)) == Values(h, Checksum(PaddedKey(h.masterKeydata)))
  {
    hide Pack, BeBytes, BeValue, Checksum, Pow256, Area, Front, Values;
    AreaParts(h);
    var a, v := Area(h), Values(h, Checksum(PaddedKey(h.masterKeydata)));
    forall i | 0 <= i < 12
      ensures Unpacked(a)[i] == v[i]
    {
      FieldOfPrinted(v, a[RESERVED..], i);
    }
  }

  lemma PrintedFields(h: VolumeHeader, salt: Salt)
    ensures Fields(salt, Area(h)) == Normalized(h).(salt := salt)
  {
    hide Checksum, Area, Front, Values, Unpacked, U16At, U32At, U64At;
    AreaParts(h);
    StoredChecksum(h);
    UnpackedArea(h);
    NumbersAt(Area(h));
    NumbersOf(h, Checksum(PaddedKey(h.masterKeydata)));
  }

  /** A number of two, four or eight bytes, most significant byte first. */
  lemma BigEndian(b: seq<byte>)
    ensures |b| == 2 ==> BeValue(b) == 0x100 * b[0] as int + b[1] as int
    ensures |b| == 4 ==>
      BeValue(b) == 0x100_0000 * b[0] as int + 0x1_0000 * b[1] as int + 0x100 * b[2] as int + b[3] as int
    ensures |b| == 8 ==> BeValue(b) == 0x1_0000_0000 * BeValue(b[..4]) + BeValue(b[4..])
  {
    hide BeValue;
    if |b| == 2 || |b| == 4 {
      BigEndianPrefix(b, 0);
      BigEndianPrefix(b, 1);
      if |b| == 4 {
        BigEndianPrefix(b, 2);
        BigEndianPrefix(b, 3);
        assert b[..4] == b;
      } else {
        assert b[..2] == b;
      }
    } else if |b| == 8 {
      BigEndianTail(b, 0);
      BigEndianTail(b, 1);
      BigEndianTail(b, 2);
      BigEndianTail(b, 3);
      NoDigits(b);
      assert b[..8] == b && b[4..][..4] == b[4..];
    }
  }

  lemma NoDigits(b: seq<byte>)
    ensures BeValue(b[..0]) == 0
  {
  }

  lemma BigEndianPrefix(b: seq<byte>, j: nat)
    requires j < |b|
    ensures BeValue(b[..j + 1]) == 256 * (if j == 0 then 0 else BeValue(b[..j])) + b[j] as int
  {
    assert b[..j + 1][..j] == b[..j];
  }

  lemma BigEndianTail(b: seq<byte>, j: nat)
    requires |b| == 8 && j < 4
    ensures BeValue(b[..4 + j + 1]) == 256 * BeValue(b[..4 + j]) + b[4 + j] as int
    ensures BeValue(b[4..][..j + 1]) == 256 * (if j == 0 then 0 else BeValue(b[4..][..j])) + b[4 + j] as int
  {
    BigEndianPrefix(b, 4 + j);
    BigEndianPrefix(b[4..], j);
  }

  lemma FieldAt(h: VolumeHeader, i: nat, lo: nat, hi: nat)
    requires i < 12 && lo == 64 + Offset(i) && hi == 64 + Offset(i + 1)
    ensures lo <= hi <= 512
    ensures BeValue(Printed(h)[lo..hi]) == Values(h, Checksum(PaddedKey(h.masterKeydata)))[i]
  {
    hide Checksum, BeValue, Area, Values;
    AreaParts(h);
    var a, v := Area(h), Values(h, Checksum(PaddedKey(h.masterKeydata)));
    FieldOfPrinted(v, a[RESERVED..], i);
    assert Printed(h)[lo..hi] == a[Offset(i)..Offset(i + 1)];
  }

  lemma FirstFields(h: VolumeHeader)
    ensures var p := Printed(h);
            && BeValue(p[64..68]) == h.magic && BeValue(p[68..70]) == h.headerVersion
            && BeValue(p[70..72]) == h.requiredVersion && BeValue(p[72..76]) == Checksum(PaddedKey(h.masterKeydata))
            && BeValue(p[76..84]) == h.volumeCreationTime && BeValue(p[84..92]) == h.modificationTime
  {
    NumbersOf(h, Checksum(PaddedKey(h.masterKeydata)));
    hide Checksum, BeValue, Values, Printed, PaddedKey;
    FieldAt(h, 0, 64, 68);
    FieldAt(h, 1, 68, 70);
    FieldAt(h, 2, 70, 72);
    FieldAt(h, 3, 72, 76);
    FieldAt(h, 4, 76, 84);
    FieldAt(h, 5, 84, 92);
  }

  lemma LastFields(h: VolumeHeader)
    ensures var p := Printed(h);
            && BeValue(p[92..100]) == h.hiddenVolumeSize && BeValue(p[100..108]) == h.volumeSize
            && BeValue(p[108..116]) == h.encryptedAreaStart && BeValue(p[116..124]) == h.encryptedAreaLength
            && BeValue(p[124..128]) == h.flags && BeValue(p[128..132]) == h.sectorSize
  {
    NumbersOf(h, Checksum(PaddedKey(h.masterKeydata)));
    hide Checksum, BeValue, Values, Printed, PaddedKey;
    FieldAt(h, 6, 92, 100);
    FieldAt(h, 7, 100, 108);
    FieldAt(h, 8, 108, 116);
    FieldAt(h, 9, 116, 124);
    FieldAt(h, 10, 124, 128);
    FieldAt(h, 11, 128, 132);
  }

  /** Where each field lies in the 512 bytes of a header, the numbers most significant byte first: the two
      checksums cover the bytes before the one and the key area, and the reserved area is zero. */
  lemma PrintedLayout(h: VolumeHeader)
    ensures var p := Printed(h);
            && |p| == 512 && p[..64] == h.salt
            && BeValue(p[64..68]) == h.magic && BeValue(p[68..70]) == h.headerVersion
            && BeValue(p[70..72]) == h.requiredVersion && BeValue(p[76..84]) == h.volumeCreationTime
            && BeValue(p[84..92]) == h.modificationTime && BeValue(p[92..100]) == h.hiddenVolumeSize
            && BeValue(p[100..108]) == h.volumeSize && BeValue(p[108..116]) == h.encryptedAreaStart
            && BeValue(p[116..124]) == h.encryptedAreaLength && BeValue(p[124..128]) == h.flags
            && BeValue(p[128..132]) == h.sectorSize
    ensures var p := Printed(h);
            && BeValue(p[72..76]) == Checksum(p[256..512]) && BeValue(p[252..256]) == Checksum(p[64..252])
            && p[132..252] == Zeros(120)
            && p[256..512] == (if |h.masterKeydata| <= 256 then h.masterKeydata + Zeros(256 - |h.masterKeydata|)
                               else h.masterKeydata[..256])
  {
    assert Printed(h)[..64] == h.salt;
    hide Checksum, BeValue, Values, Printed;
    FirstFields(h);
    LastFields(h);
    ChecksumsOf(h);
  }

  lemma ChecksumsOf(h: VolumeHeader)
    ensures var p, key := Printed(h), PaddedKey(h.masterKeydata);
            && p[256..512] == key && p[132..252] == Zeros(120)
            && BeValue(p[252..256]) == Checksum(p[64..252])
  {
    hide Checksum, BeValue, Values, Pack, BeBytes, Area;
    var a, p, key := Area(h), Printed(h), PaddedKey(h.masterKeydata);
    AreaParts(h);
    var front := Front(Values(h, Checksum(key)));
    assert p[256..512] == a[192..] && p[64..252] == a[..188] && p[252..256] == a[188..192];
    assert p[132..252] == p[64..252][68..] == front[68..];
    FieldSizes();
    BeFieldAt(a, 188, 192, Checksum(front));
  }

  lemma StoredChecksum(h: VolumeHeader)
    ensures U32At(Area(h), HEADER_CRC) == Normalized(h).headerCrc
  {
    hide Pack, BeBytes, BeValue, Checksum, Area, Front, Values;
    AreaParts(h);
    FieldSizes();
    BeFieldAt(Area(h), HEADER_CRC, HEADER_CRC + 4, Normalized(h).headerCrc);
  }

  /** Parsing a printed header succeeds exactly for a right magic and a valid sector size, and
      gives the header back. */
  lemma ParsePrinted(h: VolumeHeader)
    ensures Parse(Printed(h))
         == if h.magic != VOLUME_MAGIC then Err(InvalidMagic(VOLUME_MAGIC, h.magic))
            else if !ValidSectorSize(h.sectorSize) then Err(InvalidHeaderSize(512, h.sectorSize))
            else Ok(Normalized(h))
  {
    hide U16At, U32At, U64At, Checksum, Area, Front, Pack;
    PrintedFields(h, h.salt);
    AreaParts(h);
    assert Printed(h)[SALT_SIZE..EFFECTIVE_SIZE] == Area(h) && Printed(h)[..SALT_SIZE] == h.salt;
  }

  /** So a header that is printed is accepted again exactly when it says "VERA" and has a sector size from
      512 to 4096 in steps of 512. */
  lemma PrintedAcceptedIff(h: VolumeHeader)
    ensures Parse(Printed(h)).Ok?
       <==> h.magic == 0x5645_5241 && h.sectorSize in {512, 1024, 1536, 2048, 2560, 3072, 3584, 4096}
  {
    hide Parse, Printed, Normalized;
    ParsePrinted(h);
    SectorSizes(h.sectorSize);
  }

  lemma SectorSizes(n: u32)
    ensures ValidSectorSize(n) <==> n in {512, 1024, 1536, 2048, 2560, 3072, 3584, 4096}
  {
    var q := n / 512;
    if ValidSectorSize(n) {
      assert n == 512 * q && 1 <= q <= 8;
    }
  }

  /** What the parser answers, by the places of what it looks at: what was expected comes first. */
  lemma ParseAnswers(data: seq<byte>)
    ensures |data| < 512 ==> Parse(data) == Err(InvalidHeaderSize(512, |data|))
    ensures |data| >= 512 ==>
      var magic, sectorSize := BeValue(data[64..68]), BeValue(data[128..132]);
      var headerCrc, keyCrc := BeValue(data[252..256]), BeValue(data[72..76]);
      && magic < TWO_32 && sectorSize < TWO_32 && headerCrc < TWO_32 && keyCrc < TWO_32
      && (Parse(data).Ok? <==> && magic == 0x5645_5241 && ValidSectorSize(sectorSize)
                               && headerCrc == Checksum(data[64..252]) && keyCrc == Checksum(data[256..512]))
      && (magic != 0x5645_5241 ==> Parse(data) == Err(InvalidMagic(0x5645_5241, magic)))
      && (magic == 0x5645_5241 && !ValidSectorSize(sectorSize) ==>
          Parse(data) == Err(InvalidHeaderSize(512, sectorSize)))
      && (magic == 0x5645_5241 && ValidSectorSize(sectorSize) && headerCrc != Checksum(data[64..252]) ==>
          Parse(data) == Err(InvalidCrc(Checksum(data[64..252]), headerCrc)))
      && (magic == 0x5645_5241 && ValidSectorSize(sectorSize) && headerCrc == Checksum(data[64..252])
          && keyCrc != Checksum(data[256..512]) ==>
            Parse(data) == Err(InvalidCrc(Checksum(data[256..512]), keyCrc)))
  {
    if |data| >= 512 {
      LookedAt(data);
      hide BeValue, Checksum, ValidSectorSize, U16At, U32At, U64At;
    }
  }

  lemma LookedAt(data: seq<byte>)
    requires |data| >= 512
    ensures var enc := data[64..512];
            && U32At(enc, 0) == BeValue(data[64..68]) && U32At(enc, 64) == BeValue(data[128..132])
            && U32At(enc, 188) == BeValue(data[252..256]) && U32At(enc, 8) == BeValue(data[72..76])
            && enc[..188] == data[64..252] && enc[192..] == data[256..512]
  {
    hide BeValue;
    var enc := data[64..512];
    SliceOfSlice(data, 64, 512, 0, 4);
    SliceOfSlice(data, 64, 512, 64, 68);
    SliceOfSlice(data, 64, 512, 188, 192);
    SliceOfSlice(data, 64, 512, 8, 12);
    SliceOfSlice(data, 64, 512, 0, 188);
    SliceOfSlice(data, 64, 512, 192, 448);
    assert enc[..188] == enc[0..188] && enc[192..] == enc[192..448];
  }

  /** The same from a whole slot. */
  lemma ParsePrintedSlot(h: VolumeHeader)
    ensures Parse(PrintedSlot(h)) == Parse(Printed(h))
  {
    assert PrintedSlot(h)[..SALT_SIZE] == Printed(h)[..SALT_SIZE];
    assert PrintedSlot(h)[SALT_SIZE..EFFECTIVE_SIZE] == Printed(h)[SALT_SIZE..EFFECTIVE_SIZE];
  }

  lemma UnpackedFields(salt: Salt, enc: seq<byte>)
    requires |enc| == ENCRYPTED_SIZE
    ensures Values(Fields(salt, enc), U32At(enc, KEY_AREA_CRC)) == Unpacked(enc)
  {
    hide U16At, U32At, U64At, Unpacked, Values;
    NumbersAt(enc);
    NumbersOf(Fields(salt, enc), U32At(enc, KEY_AREA_CRC));
    TwelveEqual(Values(Fields(salt, enc), U32At(enc, KEY_AREA_CRC)), Unpacked(enc));
  }

  lemma TwelveEqual(u: seq<nat>, v: seq<nat>)
    requires |u| == |v| == 12
    requires u[0] == v[0] && u[1] == v[1] && u[2] == v[2] && u[3] == v[3] && u[4] == v[4] && u[5] == v[5]
    requires u[6] == v[6] && u[7] == v[7] && u[8] == v[8] && u[9] == v[9] && u[10] == v[10] && u[11] == v[11]
    ensures u == v
  {
  }

  lemma AreaOfFields(salt: Salt, enc: seq<byte>)
    requires |enc| == ENCRYPTED_SIZE
    requires U32At(enc, HEADER_CRC) == Checksum(enc[..HEADER_CRC])
    requires U32At(enc, KEY_AREA_CRC) == Checksum(enc[MASTER_KEYDATA..])
    ensures Area(Fields(salt, enc)) == enc <==> enc[RESERVED..HEADER_CRC] == Zeros(HEADER_CRC - RESERVED)
  {
    hide Pack, BeBytes, BeValue, Checksum, Values;
    var h, zeros := Fields(salt, enc), Zeros(HEADER_CRC - RESERVED);
    AreaParts(h);
    UnpackedFields(salt, enc);
    Repacked(enc, 12);
    assert Front(Values(h, Checksum(h.masterKeydata))) == enc[..RESERVED] + zeros;
    if enc[RESERVED..HEADER_CRC] == zeros {
      assert enc[..HEADER_CRC] == enc[..RESERVED] + zeros;
      BeBytesOfValue(enc[HEADER_CRC..HEADER_CRC + 4]);
      assert enc == enc[..HEADER_CRC] + enc[HEADER_CRC..HEADER_CRC + 4] + enc[MASTER_KEYDATA..];
    } else {
      assert (enc[..RESERVED] + zeros)[RESERVED..] == zeros;
      assert enc[..HEADER_CRC][RESERVED..] == enc[RESERVED..HEADER_CRC];
    }
  }

  /** Printing a parsed header reproduces the 512 bytes exactly when the reserved area is zero. */
  lemma PrintParsed(data: seq<byte>)
    requires Parse(data).Ok?
    ensures Printed(Parse(data).value) == data[..EFFECTIVE_SIZE]
       <==> data[SALT_SIZE + RESERVED..SALT_SIZE + HEADER_CRC] == Zeros(HEADER_CRC - RESERVED)
  {
    hide U32At, Fields, Checksum, Area;
    var salt, enc := data[..SALT_SIZE], data[SALT_SIZE..EFFECTIVE_SIZE];
    AreaOfFields(salt, enc);
    SliceOfSlice(data, SALT_SIZE, EFFECTIVE_SIZE, RESERVED, HEADER_CRC);
    assert data[..EFFECTIVE_SIZE] == salt + enc;
    SaltOfFields(salt, enc);
    assert (salt + Area(Fields(salt, enc)))[SALT_SIZE..] == Area(Fields(salt, enc)) && (salt + enc)[SALT_SIZE..] == enc;
  }

  lemma SaltOfFields(salt: Salt, enc: seq<byte>)
    requires |enc| == ENCRYPTED_SIZE
    ensures Fields(salt, enc).salt == salt
  {
  }

  // ------------------------------------------------------------------ damage

  /** A window of at most four bytes that does not reach across the start of the stored header
      checksum. */
  predicate NarrowWindow(at: nat, n: nat) {
    n <= 4 && at + n <= ENCRYPTED_SIZE && (at + n <= HEADER_CRC || HEADER_CRC <= at)
  }

  lemma ChecksumShows(s: seq<byte>, at: nat, w: seq<byte>)
    requires at + |w| <= |s| && |w| <= 4 && Checksum(Splice(s, at, w)) == Checksum(s)
    ensures w == s[at..at + |w|]
  {
    hide Checksum;
    var x, v, y := s[..at], s[at..at + |w|], s[at + |w|..];
    assert s == x + v + y && Splice(s, at, w) == x + w + y;
    WindowShows(x, w, v, y);
  }

  lemma KeyAreaDamage(enc: seq<byte>, bad: seq<byte>, at: nat, w: seq<byte>)
    requires |enc| == ENCRYPTED_SIZE && HEADER_CRC <= at && |w| <= 4 && MASTER_KEYDATA < at + |w| <= ENCRYPTED_SIZE
    requires bad == Splice(enc, at, w) && bad[..MASTER_KEYDATA] == enc[..MASTER_KEYDATA]
    requires Checksum(bad[MASTER_KEYDATA..]) == Checksum(enc[MASTER_KEYDATA..])
    ensures w == enc[at..at + |w|]
  {
    hide Checksum;
    var m := if at < MASTER_KEYDATA then MASTER_KEYDATA - at else 0;
    var keys, from := enc[MASTER_KEYDATA..], at + m - MASTER_KEYDATA;
    assert bad[MASTER_KEYDATA..] == Splice(keys, from, w[m..]);
    ChecksumShows(keys, from, w[m..]);
    assert bad == bad[..MASTER_KEYDATA] + bad[MASTER_KEYDATA..];
    assert Splice(keys, from, w[m..]) == keys;
    assert enc == enc[..MASTER_KEYDATA] + keys;
    SpliceParts(enc, at, w);
  }

  lemma AreaDamage(enc: seq<byte>, at: nat, w: seq<byte>)
    requires |enc| == ENCRYPTED_SIZE && NarrowWindow(at, |w|)
    requires forall e {:trigger U32At(e, HEADER_CRC)} :: e == enc || e == Splice(enc, at, w) ==>
      U32At(e, HEADER_CRC) == Checksum(e[..HEADER_CRC]) && U32At(e, KEY_AREA_CRC) == Checksum(e[MASTER_KEYDATA..])
    ensures w == enc[at..at + |w|]
  {
    hide Checksum, BeValue;
    var bad := Splice(enc, at, w);
    assert U32At(bad, HEADER_CRC) == Checksum(bad[..HEADER_CRC]);
    assert U32At(enc, HEADER_CRC) == Checksum(enc[..HEADER_CRC]);
    if at + |w| <= HEADER_CRC {
      assert bad[..HEADER_CRC] == Splice(enc[..HEADER_CRC], at, w);
      assert bad[HEADER_CRC..HEADER_CRC + 4] == enc[HEADER_CRC..HEADER_CRC + 4];
      ChecksumShows(enc[..HEADER_CRC], at, w);
      SliceOfSlice(enc, 0, HEADER_CRC, at, at + |w|);
    } else {
      assert bad[..HEADER_CRC] == enc[..HEADER_CRC];
      BeBytesOfValue(bad[HEADER_CRC..HEADER_CRC + 4]);
      BeBytesOfValue(enc[HEADER_CRC..HEADER_CRC + 4]);
      assert bad[..MASTER_KEYDATA] == enc[..HEADER_CRC] + enc[HEADER_CRC..HEADER_CRC + 4] == enc[..MASTER_KEYDATA];
      SpliceParts(enc, at, w);
      if at + |w| > MASTER_KEYDATA {
        SliceOfSlice(enc, 0, MASTER_KEYDATA, KEY_AREA_CRC, KEY_AREA_CRC + 4);
        SliceOfSlice(bad, 0, MASTER_KEYDATA, KEY_AREA_CRC, KEY_AREA_CRC + 4);
        KeyAreaDamage(enc, bad, at, w);
      } else {
        SliceOfSlice(enc, 0, MASTER_KEYDATA, at, at + |w|);
        SliceOfSlice(bad, 0, MASTER_KEYDATA, at, at + |w|);
      }
    }
  }

  /** Overwriting up to four consecutive bytes of an accepted header, inside one checked region,
      with anything but what was there makes the parser reject it. */
  lemma DamageDetected(data: seq<byte>, at: nat, w: seq<byte>)
    requires Parse(data).Ok? && NarrowWindow(at, |w|)
    requires w != data[SALT_SIZE + at..SALT_SIZE + at + |w|]
    ensures Parse(Splice(data, SALT_SIZE + at, w)).Err?
  {
    hide U32At, Checksum, Fields, Splice;
    var enc, bad := data[SALT_SIZE..EFFECTIVE_SIZE], Splice(data, SALT_SIZE + at, w);
    AreaOfSplice(data, at, w);
    SliceOfSlice(data, SALT_SIZE, EFFECTIVE_SIZE, at, at + |w|);
    if Parse(bad).Ok? {
      AreaDamage(enc, at, w);
      assert false;
    }
  }

  lemma AreaOfSplice(data: seq<byte>, at: nat, w: seq<byte>)
    requires |data| >= EFFECTIVE_SIZE && at + |w| <= ENCRYPTED_SIZE
    ensures Splice(data, SALT_SIZE + at, w)[SALT_SIZE..EFFECTIVE_SIZE]
         == Splice(data[SALT_SIZE..EFFECTIVE_SIZE], at, w)
  {
  }

  /** In particular, changing any one of the 448 bytes of a printed header does. */
  lemma OneByteDetected(h: VolumeHeader, i: nat, b: byte)
    requires h.magic == VOLUME_MAGIC && ValidSectorSize(h.sectorSize)
    requires SALT_SIZE <= i < EFFECTIVE_SIZE && b != Printed(h)[i]
    ensures Parse(Printed(h)[i := b]).Err?
  {
    hide Parse, Printed;
    ParsePrinted(h);
    var data := Printed(h);
    assert data[i := b] == Splice(data, SALT_SIZE + (i - SALT_SIZE), [b]);
    assert data[i..i + 1] == [data[i]];
    DamageDetected(data, i - SALT_SIZE, [b]);
  }
}
