/** The 32-byte trailing record of a boot image: its printer, its parser and the image verdict. */
module Manifest {
  import opened Bytes
  import opened Crc32

  const FORMAT_VERSION := 1
  const MULTIBOOT_FORMAT_VERSION := 2
  const ROLE_GOLDEN := 1
  const ROLE_FIRMWARE := 2
  const PRODUCT_APPLETINI := 0x100
  const PRODUCT_MULTITINI := 0x200
  const FLAG_MULTIBOOT := 0x400
  const FLAG_RECOVERY_CAPABLE := 1
  const PREFIX_SIZE := 28
  const MANIFEST_SIZE := 32

  function Ascii(text: string): (data: seq<byte>)
    ensures |data| == |text|
  {
    seq(|text|, i requires 0 <= i < |text| => text[i] as int % 256)
  }

  const MAGIC: seq<byte> := Ascii("ATNIMG1") + [0]
  const RECOVERY_MARKER: seq<byte> := Ascii("APPLETINI-GOLDEN-RECOVERY-V1")

  function ProductMarker(product: int): seq<byte> {
    if product == PRODUCT_APPLETINI then Ascii("APPLETINI-MULTIBOOT-V1") else Ascii("MULTITINI-MULTIBOOT-V1")
  }

  function ProductCapacity(product: int): int {
    if product == PRODUCT_APPLETINI then 0x600000 else 0x7E0000
  }

  function ProductByName(name: string): Option<int> {
    if name == "appletini" then Some(PRODUCT_APPLETINI)
    else if name == "multitini" then Some(PRODUCT_MULTITINI)
    else None
  }

  datatype ImageManifest = ImageManifest(
    version: int, role: int, flags: int, payloadSize: int, payloadCrc: int, manifestCrc: int)

  datatype ManifestError =
    | UnknownRole | ReservedForFirmware | BadProductFlags | UnsupportedVersion | UnknownFlags
    | SizeNotU32 | CrcNotU32 | WrongLength | BadMagic | ManifestCrcMismatch
    | ImageTooSmall | PayloadSizeMismatch | MissingMarker | ExceedsSlot | ConflictingMarkers | PayloadCrcMismatch
    | WrongRole | WrongRecovery | UnknownProduct | WrongProduct
    | BadMaxSize | PayloadTooLarge

  type Checked<T> = Result<T, ManifestError>

  /** `flags & PRODUCT_MASK`. */
  function ProductBits(flags: int): int {
    flags / 0x100 % 4 * 0x100
  }

  /** `bool(flags & FLAG_RECOVERY_CAPABLE)`. */
  predicate RecoveryCapable(flags: int) {
    flags % 2 == 1
  }

  function RoleAndFlagsError(role: int, flags: int, version: int): Option<ManifestError> {
    if role != ROLE_GOLDEN && role != ROLE_FIRMWARE then Some(UnknownRole)
    else if version == FORMAT_VERSION then
      if flags / 2 != 0 then Some(UnknownFlags) else None
    else if version == MULTIBOOT_FORMAT_VERSION then
      var product := ProductBits(flags);
      if role != ROLE_FIRMWARE then Some(ReservedForFirmware)
      else if !(product == PRODUCT_APPLETINI || product == PRODUCT_MULTITINI)
           || flags != product + FLAG_MULTIBOOT + FLAG_RECOVERY_CAPABLE then Some(BadProductFlags)
      else None
    else Some(UnsupportedVersion)
  }

  function Prefix(role: int, flags: int, payloadSize: int, payloadCrc: int, version: int): (data: seq<byte>)
    requires 0 <= role <= MAX_U32 && 0 <= flags <= MAX_U32 && 0 <= version <= MAX_U32
    requires 0 <= payloadSize <= MAX_U32 && 0 <= payloadCrc <= MAX_U32
    ensures |data| == PREFIX_SIZE
  {
    MAGIC + PackU32(version) + PackU32(role) + PackU32(flags) + PackU32(payloadSize) + PackU32(payloadCrc)
  }

  function Encode(role: int, flags: int, payloadSize: int, payloadCrc: int, version: int): Checked<seq<byte>> {
    var bad := RoleAndFlagsError(role, flags, version);
    if bad.Some? then Err(bad.value)
    else if !(0 <= payloadSize <= MAX_U32) then Err(SizeNotU32)
    else if !(0 <= payloadCrc <= MAX_U32) then Err(CrcNotU32)
    else
      var prefix := Prefix(role, flags, payloadSize, payloadCrc, version);
      CrcFits(prefix, 0);
      Ok(prefix + PackU32(Crc(prefix, 0)))
  }

  function Decode(data: seq<byte>): Checked<ImageManifest> {
    if |data| != MANIFEST_SIZE then Err(WrongLength)
    else if data[..8] != MAGIC then Err(BadMagic)
    else
      var m := ImageManifest(U32(data, 8), U32(data, 12), U32(data, 16), U32(data, 20), U32(data, 24), U32(data, 28));
      var bad := RoleAndFlagsError(m.role, m.flags, m.version);
      if bad.Some? then Err(bad.value)
      else if m.manifestCrc != Crc(data[..PREFIX_SIZE], 0) then Err(ManifestCrcMismatch)
      else Ok(m)
  }

  /** Every record the printer emits is parsed back to the fields it was given. */
  lemma DecodeOfEncode(role: int, flags: int, payloadSize: int, payloadCrc: int, version: int)
    requires Encode(role, flags, payloadSize, payloadCrc, version).Ok?
    ensures var data := Encode(role, flags, payloadSize, payloadCrc, version).value;
            && |data| == MANIFEST_SIZE
            && Decode(data) ==
               Ok(ImageManifest(version, role, flags, payloadSize, payloadCrc, Crc(data[..PREFIX_SIZE], 0)))
  {
    hide Crc, PackU32, U32;
    var data := Encode(role, flags, payloadSize, payloadCrc, version).value;
    var prefix := Prefix(role, flags, payloadSize, payloadCrc, version);
    CrcFits(prefix, 0);
    assert data[..PREFIX_SIZE] == prefix;
    assert data[..8] == MAGIC;
    FieldOf(data, 8, version);
    FieldOf(data, 12, role);
    FieldOf(data, 16, flags);
    FieldOf(data, 20, payloadSize);
    FieldOf(data, 24, payloadCrc);
    FieldOf(data, 28, Crc(prefix, 0));
  }

  lemma FieldOf(data: seq<byte>, offset: nat, v: int)
    requires offset + 4 <= |data| && 0 <= v <= MAX_U32 && data[offset..offset + 4] == PackU32(v)
    ensures U32(data, offset) == v
  {
    UnpackPacked(v);
    U32OfSlice(data, offset, offset + 4, 0);
  }

  /** Every record the parser accepts is the one the printer emits for its fields. */
  lemma EncodeOfDecode(data: seq<byte>)
    requires Decode(data).Ok?
    ensures var m := Decode(data).value;
            Encode(m.role, m.flags, m.payloadSize, m.payloadCrc, m.version) == Ok(data)
  {
    hide Crc, PackU32, U32;
    var m := Decode(data).value;
    PackUnpacked(data, 8);
    PackUnpacked(data, 12);
    PackUnpacked(data, 16);
    PackUnpacked(data, 20);
    PackUnpacked(data, 24);
    PackUnpacked(data, 28);
    assert Prefix(m.role, m.flags, m.payloadSize, m.payloadCrc, m.version) == data[..PREFIX_SIZE];
    assert data == data[..PREFIX_SIZE] + data[28..32];
  }

  predicate OccursAt(marker: seq<byte>, data: seq<byte>, i: int) {
    0 <= i <= |data| - |marker| && data[i..i + |marker|] == marker
  }

  /** `marker in data`. */
  predicate Occurs(marker: seq<byte>, data: seq<byte>) {
    exists i | 0 <= i <= |data| - |marker| :: OccursAt(marker, data, i)
  }

  /** The verdict of `verify_image` on the bytes of a file. */
  function Verdict(
      image: seq<byte>, role: Option<int>, recovery: Option<bool>, product: Option<string>): Checked<ImageManifest> {
    if |image| < MANIFEST_SIZE then Err(ImageTooSmall)
    else
      var decoded := Decode(image[|image| - MANIFEST_SIZE..]);
      if decoded.Err? then decoded
      else
        var bad := ContentError(decoded.value, image[..|image| - MANIFEST_SIZE], role, recovery, product);
        if bad.Some? then Err(bad.value) else decoded
  }

  function ContentError(
      m: ImageManifest, payload: seq<byte>, role: Option<int>, recovery: Option<bool>, product: Option<string>)
    : Option<ManifestError>
  {
    if m.payloadSize != |payload| then Some(PayloadSizeMismatch)
    else if MarkerError(m, payload).Some? then MarkerError(m, payload)
    else if m.payloadCrc != Crc(payload, 0) then Some(PayloadCrcMismatch)
    else ExpectationError(m, role, recovery, product)
  }

  function OtherProduct(product: int): int {
    if product == PRODUCT_APPLETINI then PRODUCT_MULTITINI else PRODUCT_APPLETINI
  }

  function MarkerError(m: ImageManifest, payload: seq<byte>): Option<ManifestError> {
    var product := ProductBits(m.flags);
    if RecoveryCapable(m.flags) && !Occurs(RECOVERY_MARKER, payload) then Some(MissingMarker)
    else if m.version != MULTIBOOT_FORMAT_VERSION then None
    else if |payload| + MANIFEST_SIZE > ProductCapacity(product) then Some(ExceedsSlot)
    else if !Occurs(ProductMarker(product), payload) then Some(MissingMarker)
    else if Occurs(ProductMarker(OtherProduct(product)), payload) then Some(ConflictingMarkers)
    else None
  }

  function ExpectationError(
      m: ImageManifest, role: Option<int>, recovery: Option<bool>, product: Option<string>): Option<ManifestError> {
    if role.Some? && m.role != role.value then Some(WrongRole)
    else if recovery.Some? && RecoveryCapable(m.flags) != recovery.value then Some(WrongRecovery)
    else if product.Some? then
      var code := ProductByName(product.value);
      if code.None? then Some(UnknownProduct)
      else if m.version != MULTIBOOT_FORMAT_VERSION || ProductBits(m.flags) != code.value then Some(WrongProduct)
      else None
    else None
  }

  /** The record that the printer makes for this payload and manifest ends the image, and its markers and
      expectations hold. */
  ghost predicate Sealed(
      image: seq<byte>, m: ImageManifest, role: Option<int>, recovery: Option<bool>, product: Option<string>)
  {
    && |image| >= MANIFEST_SIZE
    && var payload, record := image[..|image| - MANIFEST_SIZE], image[|image| - MANIFEST_SIZE..];
       && m.payloadSize == |payload| && m.payloadCrc == Crc(payload, 0)
       && m.manifestCrc == Crc(record[..PREFIX_SIZE], 0)
       && Encode(m.role, m.flags, m.payloadSize, m.payloadCrc, m.version) == Ok(record)
       && MarkerError(m, payload) == None && ExpectationError(m, role, recovery, product) == None
  }

  /** Verification returns a manifest exactly for images the printer could have sealed with it. */
  lemma AcceptedIffSealed(
      image: seq<byte>, m: ImageManifest, role: Option<int>, recovery: Option<bool>, product: Option<string>)
    ensures Verdict(image, role, recovery, product) == Ok(m) <==> Sealed(image, m, role, recovery, product)
  {
    hide Crc, Encode, MarkerError, ExpectationError;
    if |image| >= MANIFEST_SIZE {
      var record := image[|image| - MANIFEST_SIZE..];
      if Decode(record).Ok? {
        EncodeOfDecode(record);
      }
      if Sealed(image, m, role, recovery, product) {
        DecodeOfEncode(m.role, m.flags, m.payloadSize, m.payloadCrc, m.version);
      }
    }
  }

  /** What a caller may expect of an accepted image: its role, whether it can recover, and the product it is tagged for,
      which only a version 2 image can be. */
  predicate AsExpected(m: ImageManifest, role: Option<int>, recovery: Option<bool>, product: Option<string>) {
    && (role.Some? ==> m.role == role.value)
    && (recovery.Some? ==> recovery.value == (m.flags % 2 == 1))
    && (product.Some? ==>
          && m.version == 2
          && ((product.value == "appletini" && m.flags / 0x100 % 4 == 1)
              || (product.value == "multitini" && m.flags / 0x100 % 4 == 2)))
  }

  /** Verification under expectations is verification without any, and the expectations met. */
  lemma AcceptedIffAsExpected(
      image: seq<byte>, m: ImageManifest, role: Option<int>, recovery: Option<bool>, product: Option<string>)
    ensures Verdict(image, role, recovery, product) == Ok(m) <==>
            Verdict(image, None, None, None) == Ok(m) && AsExpected(m, role, recovery, product)
  {
    hide Crc, Decode, MarkerError;
  }

  /** Role and flags are one of six combinations: version 1 with either role, recovering or not, and version 2 for
      firmware that recovers, tagged for one of the two products. */
  lemma SixKinds(role: int, flags: int, version: int)
    ensures RoleAndFlagsError(role, flags, version) == None <==>
      || (version == 1 && role in {1, 2} && flags in {0, 1})
      || (version == 2 && role == 2 && flags in {0x501, 0x601})
  {
  }

  const GOLDEN_TEXT := "APPLETINI-GOLDEN-RECOVERY-V1"
  const APPLETINI_TEXT := "APPLETINI-MULTIBOOT-V1"
  const MULTITINI_TEXT := "MULTITINI-MULTIBOOT-V1"

  /** The linked texts a payload of `size` bytes must and must not contain, and the slot it must fit. */
  predicate MarkersAsTagged(m: ImageManifest, payload: seq<byte>) {
    && (m.flags % 2 == 1 ==> Occurs(Ascii(GOLDEN_TEXT), payload))
    && (m.version == 2 && m.flags / 0x100 % 4 == 1 ==>
          |payload| + 32 <= 6 * 0x10_0000
          && Occurs(Ascii(APPLETINI_TEXT), payload) && !Occurs(Ascii(MULTITINI_TEXT), payload))
    && (m.version == 2 && m.flags / 0x100 % 4 == 2 ==>
          |payload| + 32 <= 8 * 0x10_0000 - 0x2_0000 && Occurs(Ascii(MULTITINI_TEXT), payload)
          && !Occurs(Ascii(APPLETINI_TEXT), payload))
  }

  /** No marker rule is violated exactly when the payload carries the texts of its tags, only those, and fits its slot.
      */
  lemma MarkersIffAsTagged(m: ImageManifest, payload: seq<byte>)
    requires RoleAndFlagsError(m.role, m.flags, m.version) == None
    ensures MarkerError(m, payload) == None <==> MarkersAsTagged(m, payload)
  {
    SixKinds(m.role, m.flags, m.version);
    hide Occurs, Ascii, RoleAndFlagsError;
  }

  lemma FieldDiffers(data: seq<byte>, damaged: seq<byte>, offset: nat, i: nat)
    requires offset + 4 <= |data| == |damaged| && offset <= i < offset + 4 && data[i] != damaged[i]
    ensures U32(data, offset) != U32(damaged, offset)
  {
    PackUnpacked(data, offset);
    PackUnpacked(damaged, offset);
    assert data[offset..offset + 4][i - offset] != damaged[offset..offset + 4][i - offset];
  }

  /** Two accepted records that differ in one short window differ in the payload checksum they store. */
  lemma DamagedRecord(data: seq<byte>, damaged: seq<byte>, lo: nat)
    requires Decode(data).Ok? && Decode(damaged).Ok?
    requires DifferWithin(data, damaged, lo) && data != damaged
    ensures U32(data, 24) != U32(damaged, 24)
  {
    var a, b := data[..PREFIX_SIZE], damaged[..PREFIX_SIZE];
    if a == b {
      assert data == a + data[PREFIX_SIZE..] && damaged == b + damaged[PREFIX_SIZE..];
      var i :| 0 <= i < 4 && data[PREFIX_SIZE..][i] != damaged[PREFIX_SIZE..][i];
      FieldDiffers(data, damaged, 28, 28 + i);
    } else {
      assert DifferWithin(a, b, lo);
      var j :| 0 <= j < PREFIX_SIZE && a[j] != b[j];
      if U32(data, 28) == U32(damaged, 28) {
        CrcDetectsBurst(a, b, lo, 0);
      } else {
        assert lo + 4 > 28;
        FieldDiffers(data, damaged, 24, j);
      }
    }
  }

  /** What acceptance says about the stored bytes alone. */
  ghost predicate Intact(payload: seq<byte>, record: seq<byte>) {
    |record| == MANIFEST_SIZE && Decode(record).Ok? && U32(record, 24) == Crc(payload, 0)
  }

  lemma AcceptedIsIntact(image: seq<byte>, role: Option<int>, recovery: Option<bool>, product: Option<string>)
    requires Verdict(image, role, recovery, product).Ok?
    ensures |image| >= MANIFEST_SIZE && Intact(image[..|image| - MANIFEST_SIZE], image[|image| - MANIFEST_SIZE..])
  {
  }

  lemma DamageBreaksIntegrity(payload: seq<byte>, record: seq<byte>, payload': seq<byte>, record': seq<byte>, lo: nat)
    requires Intact(payload, record) && Intact(payload', record') && |payload| == |payload'|
    requires DifferWithin(payload + record, payload' + record', lo)
    ensures payload == payload' && record == record'
  {
    hide Decode, Crc;
    WindowOverConcat(payload, record, payload', record', lo);
    if record == record' {
      CrcDetectsBurst(payload, payload', lo, 0);
    } else if lo < |payload| {
      MagicShields(record, record');
    } else {
      DamagedRecord(record, record', lo - |payload|);
    }
  }

  lemma MagicShields(record: seq<byte>, record': seq<byte>)
    requires Decode(record).Ok? && Decode(record').Ok?
    requires forall i | 3 <= i < MANIFEST_SIZE :: record[i] == record'[i]
    ensures record == record'
  {
    assert record[..8] == record'[..8];
    assert forall i | 0 <= i < 8 :: record[..8][i] == record[i] && record'[..8][i] == record'[i];
  }

  /** Damage confined to four consecutive bytes, anywhere in an accepted image, is rejected whatever is expected. */
  lemma DamageIsRejected(
      image: seq<byte>, damaged: seq<byte>, lo: nat, role: Option<int>, recovery: Option<bool>, product: Option<string>,
      role': Option<int>, recovery': Option<bool>, product': Option<string>)
    requires Verdict(image, role, recovery, product).Ok?
    requires DifferWithin(image, damaged, lo) && image != damaged
    ensures Verdict(damaged, role', recovery', product').Err?
  {
    hide Verdict, Intact;
    if Verdict(damaged, role', recovery', product').Ok? {
      var n := |image| - MANIFEST_SIZE;
      AcceptedIsIntact(image, role, recovery, product);
      AcceptedIsIntact(damaged, role', recovery', product');
      assert image == image[..n] + image[n..] && damaged == damaged[..n] + damaged[n..];
      DamageBreaksIntegrity(image[..n], image[n..], damaged[..n], damaged[n..], lo);
    }
  }
}
