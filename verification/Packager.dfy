/** The streaming verifier and the append-verify-replace transaction. */
module Packager {
  import opened Bytes
  import opened Crc32
  import opened Manifest

  const COPY_CHUNK_SIZE := 1024 * 1024

  /** `data[-count:]`, where `-0` means the whole of `data`. */
  function LastBytes(data: seq<byte>, count: nat): seq<byte> {
    if count == 0 || count >= |data| then data else data[|data| - count..]
  }

  /** A tail of `count` bytes, or all of the data when that is shorter, or when none are asked for. */
  lemma TailLaw(data: seq<byte>, count: nat)
    ensures var r := LastBytes(data, count);
            && |r| == (if 0 < count <= |data| then count else |data|) && data == data[..|data| - |r|] + r
  {
  }

  lemma LastBytesOfLastBytes(data: seq<byte>, chunk: seq<byte>, count: nat)
    ensures LastBytes(LastBytes(data, count) + chunk, count) == LastBytes(data + chunk, count)
  {
  }

  lemma Occurrence(marker: seq<byte>, data: seq<byte>) returns (i: int)
    requires Occurs(marker, data)
    ensures OccursAt(marker, data, i)
  {
    i :| 0 <= i <= |data| - |marker| && OccursAt(marker, data, i);
  }

  lemma OccursInSuffix(marker: seq<byte>, data: seq<byte>, skip: nat)
    requires skip <= |data| && Occurs(marker, data[skip..])
    ensures Occurs(marker, data)
  {
    var i := Occurrence(marker, data[skip..]);
    assert data[skip..][i..i + |marker|] == data[skip + i..skip + i + |marker|];
    assert OccursAt(marker, data, skip + i);
  }

  /** Searching the kept tail and the next chunk is searching everything read so far, across chunk boundaries. */
  lemma TailSuffices(marker: seq<byte>, seen: seq<byte>, chunk: seq<byte>)
    requires |marker| >= 1 && !Occurs(marker, seen)
    ensures Occurs(marker, LastBytes(seen, |marker| - 1) + chunk) == Occurs(marker, seen + chunk)
  {
    var tail := LastBytes(seen, |marker| - 1);
    var skip := |seen| - |tail|;
    assert (seen + chunk)[skip..] == tail + chunk;
    if Occurs(marker, tail + chunk) {
      OccursInSuffix(marker, seen + chunk, skip);
    }
    if Occurs(marker, seen + chunk) {
      var i := Occurrence(marker, seen + chunk);
      if i + |marker| <= |seen| {
        assert (seen + chunk)[i..i + |marker|] == seen[i..i + |marker|];
        assert OccursAt(marker, seen, i);
        assert false;
      }
      assert i >= skip;
      assert (tail + chunk)[i - skip..i - skip + |marker|] == (seen + chunk)[i..i + |marker|];
      assert OccursAt(marker, tail + chunk, i - skip);
    }
  }

  lemma OccursInPrefix(marker: seq<byte>, data: seq<byte>, end: nat)
    requires end <= |data| && Occurs(marker, data[..end])
    ensures Occurs(marker, data)
  {
    var i := Occurrence(marker, data[..end]);
    assert data[..end][i..i + |marker|] == data[i..i + |marker|];
    assert OccursAt(marker, data, i);
  }

  /** What came of an operation on a file: its result, or a failure of the operating system. */
  datatype Attempt<+T> = Done(value: T) | Failed

  /** An open file. `Read` may fail, and may return fewer bytes than asked for, but none only at the end of the file. */
  class Stream {
    const content: seq<byte>
    var pos: nat

    constructor (content: seq<byte>)
      ensures this.content == content && pos == 0
    {
      this.content := content;
      pos := 0;
    }

    method Seek(target: nat)
      modifies this
      ensures pos == target
    {
      pos := target;
    }

    method Read(n: nat) returns (r: Attempt<seq<byte>>)
      modifies this
      ensures r.Failed? ==> pos == old(pos)
      ensures r.Done? ==> pos == old(pos) + |r.value| && |r.value| <= n
      ensures r.Done? ==>
        if n == 0 || old(pos) >= |content| then r.value == []
        else r.value != [] && pos <= |content| && r.value == content[old(pos)..pos]
    {
      if * {
        return Failed;
      }
      if n == 0 || pos >= |content| {
        return Done([]);
      }
      var k :| 1 <= k <= n && pos + k <= |content|;
      r := Done(content[pos..pos + k]);
      pos := pos + k;
    }

    /** Reads that go on until `n` bytes are there. */
    method ReadFully(n: nat) returns (r: Attempt<seq<byte>>)
      requires pos + n <= |content|
      modifies this
      ensures r.Done? ==> r.value == content[old(pos)..old(pos) + n]
    {
      var data: seq<byte> := [];
      while |data| < n
        invariant |data| <= n && pos == old(pos) + |data| && data == content[old(pos)..pos]
        decreases n - |data|
      {
        var chunk := Read(n - |data|);
        if chunk.Failed? {
          return Failed;
        }
        data := data + chunk.value;
      }
      r := Done(data);
    }
  }

  /** `_marker_present`: however the payload is cut into chunks, a marker is found exactly when it occurs in it. */
  method MarkerPresent(stream: Stream, payloadSize: nat, marker: seq<byte>) returns (r: Attempt<bool>)
    requires |marker| >= 1 && payloadSize <= |stream.content|
    modifies stream
    ensures r.Done? ==> r.value == Occurs(marker, stream.content[..payloadSize])
  {
    stream.Seek(0);
    var remaining := payloadSize;
    var tail := [];
    while remaining != 0
      invariant 0 <= remaining <= payloadSize && stream.pos == payloadSize - remaining
      invariant !Occurs(marker, stream.content[..stream.pos])
      invariant tail == LastBytes(stream.content[..stream.pos], |marker| - 1)
    {
      ghost var seen := stream.content[..stream.pos];
      var read := stream.Read(if remaining < COPY_CHUNK_SIZE then remaining else COPY_CHUNK_SIZE);
      if read.Failed? {
        return Failed;
      }
      var chunk := read.value;
      if chunk == [] {
        break;
      }
      assert seen + chunk == stream.content[..stream.pos];
      TailSuffices(marker, seen, chunk);
      if Occurs(marker, tail + chunk) {
        assert stream.content[..stream.pos] == stream.content[..payloadSize][..stream.pos];
        OccursInPrefix(marker, stream.content[..payloadSize], stream.pos);
        stream.Seek(0);
        return Done(true);
      }
      LastBytesOfLastBytes(seen, chunk, |marker| - 1);
      tail := LastBytes(tail + chunk, |marker| - 1);
      remaining := remaining - |chunk|;
    }
    return Done(false);
  }

  /** `_payload_crc32`: the checksum of the payload bytes from the current position on. */
  method PayloadCrc(stream: Stream, payloadSize: nat) returns (r: Attempt<Checked<nat>>)
    requires stream.pos <= |stream.content|
    modifies stream
    ensures r.Done? ==>
      if old(stream.pos) + payloadSize <= |stream.content|
      then r.value == Ok(Crc(stream.content[old(stream.pos)..old(stream.pos) + payloadSize], 0))
      else r.value == Err(PayloadSizeMismatch)
  {
    hide Crc;
    var remaining := payloadSize;
    var crc: nat := 0;
    ghost var start, content := stream.pos, stream.content;
    EmptyCrc();
    assert content[start..start] == [];
    while remaining != 0
      invariant 0 <= remaining <= payloadSize && stream.pos == start + payloadSize - remaining
      invariant stream.pos <= |stream.content|
      invariant crc == Crc(stream.content[start..stream.pos], 0)
    {
      ghost var before := stream.pos;
      var read := stream.Read(if remaining < COPY_CHUNK_SIZE then remaining else COPY_CHUNK_SIZE);
      if read.Failed? {
        return Failed;
      }
      var chunk := read.value;
      if chunk == [] {
        return Done(Err(PayloadSizeMismatch));
      }
      assert content[start..before] + chunk == content[start..stream.pos];
      CrcOfChunks(content[start..before], chunk, 0);
      crc := Crc(chunk, crc);
      remaining := remaining - |chunk|;
    }
    r := Done(Ok(crc));
  }

  lemma EmptyCrc()
    ensures Crc([], 0) == 0
  {
    ZeroBits(32);
    assert Complement(Complement(Bits(0, 32))) == Bits(0, 32);
  }

  lemma {:induction false} ZeroBits(n: nat)
    ensures Number(Bits(0, n)) == 0
  {
    if n > 0 {
      ZeroBits(n - 1);
    }
  }

  /** The marker checks of `verify_image`, each a scan of the stream. */
  method CheckMarkers(stream: Stream, payloadSize: nat, m: ImageManifest) returns (bad: Attempt<Option<ManifestError>>)
    requires payloadSize <= |stream.content|
    modifies stream
    ensures bad.Done? ==> bad.value == MarkerError(m, stream.content[..payloadSize])
  {
    if RecoveryCapable(m.flags) {
      var present := MarkerPresent(stream, payloadSize, RECOVERY_MARKER);
      if present.Failed? {
        return Failed;
      }
      if !present.value {
        return Done(Some(MissingMarker));
      }
    }
    if m.version == MULTIBOOT_FORMAT_VERSION {
      var product := ProductBits(m.flags);
      if payloadSize + MANIFEST_SIZE > ProductCapacity(product) {
        return Done(Some(ExceedsSlot));
      }
      var present := MarkerPresent(stream, payloadSize, ProductMarker(product));
      if present.Failed? {
        return Failed;
      }
      if !present.value {
        return Done(Some(MissingMarker));
      }
      present := MarkerPresent(stream, payloadSize, ProductMarker(OtherProduct(product)));
      if present.Failed? {
        return Failed;
      }
      if present.value {
        return Done(Some(ConflictingMarkers));
      }
    }
    bad := Done(None);
  }

  method CheckContent(
      stream: Stream, payloadSize: nat, m: ImageManifest,
      role: Option<int>, recovery: Option<bool>, product: Option<string>)
    returns (bad: Attempt<Option<ManifestError>>)
    requires payloadSize <= |stream.content|
    modifies stream
    ensures bad.Done? ==> bad.value == ContentError(m, stream.content[..payloadSize], role, recovery, product)
  {
    if m.payloadSize != payloadSize {
      return Done(Some(PayloadSizeMismatch));
    }
    bad := CheckMarkers(stream, payloadSize, m);
    if bad.Failed? || bad.value.Some? {
      return;
    }
    stream.Seek(0);
    var crc := PayloadCrc(stream, payloadSize);
    assert stream.content[0..payloadSize] == stream.content[..payloadSize];
    if crc.Failed? {
      return Failed;
    }
    if crc.value.Err? {
      return Done(Some(PayloadSizeMismatch));
    }
    if m.payloadCrc != crc.value.value {
      return Done(Some(PayloadCrcMismatch));
    }
    bad := Done(ExpectationError(m, role, recovery, product));
  }

  /** `verify_image` on an open file: unless a read fails, exactly the verdict on its bytes. */
  method VerifyImage(stream: Stream, role: Option<int>, recovery: Option<bool>, product: Option<string>)
    returns (r: Attempt<Checked<ImageManifest>>)
    modifies stream
    ensures r.Done? ==> r.value == Verdict(stream.content, role, recovery, product)
  {
    hide ContentError, Decode;
    var imageSize := |stream.content|;
    if imageSize < MANIFEST_SIZE {
      return Done(Err(ImageTooSmall));
    }
    stream.Seek(imageSize - MANIFEST_SIZE);
    var record := stream.ReadFully(MANIFEST_SIZE);
    if record.Failed? {
      return Failed;
    }
    assert record.value == stream.content[imageSize - MANIFEST_SIZE..];
    var manifest := Decode(record.value);
    if manifest.Ok? {
      var bad := CheckContent(stream, imageSize - MANIFEST_SIZE, manifest.value, role, recovery, product);
      if bad.Failed? {
        return Failed;
      }
      if bad.value.Some? {
        return Done(Err(bad.value.value));
      }
    }
    r := Done(manifest);
  }

  datatype Path = Path(dir: string, name: string)

  /** What `append_manifest` decides before it opens a file. */
  datatype Job = Job(role: int, flags: int, version: int, maxSize: Option<int>, product: Option<string>)

  /** `flags | bit`, for a single bit given as a power of two. */
  function WithBit(flags: int, bit: int): int
    requires bit > 0
  {
    if flags / bit % 2 == 1 then flags else flags + bit
  }

  function Prepare(role: int, flags: int, maxSize: Option<int>, product: Option<string>): Checked<Job> {
    var code := if product.Some? then ProductByName(product.value) else None;
    if product.Some? && code.None? then Err(UnknownProduct)
    else
      var job :=
        if code.None? then Job(role, flags, FORMAT_VERSION, maxSize, product)
        else
          var capacity := ProductCapacity(code.value);
          Job(role, WithBit(WithBit(WithBit(flags, code.value), FLAG_MULTIBOOT), FLAG_RECOVERY_CAPABLE),
              MULTIBOOT_FORMAT_VERSION,
              Some(if maxSize.Some? && maxSize.value < capacity then maxSize.value else capacity), product);
      var bad := RoleAndFlagsError(job.role, job.flags, job.version);
      if bad.Some? then Err(bad.value)
      else if job.maxSize.Some? && !(MANIFEST_SIZE <= job.maxSize.value <= MAX_U32 + MANIFEST_SIZE) then Err(BadMaxSize)
      else Ok(job)
  }

  predicate Fits(job: Job, payloadSize: int) {
    payloadSize <= MAX_U32 && (job.maxSize.Some? ==> payloadSize + MANIFEST_SIZE <= job.maxSize.value)
  }

  /** A payload fits when its size is a 32-bit number and, with its 32-byte record, keeps to the limit, if there is one.
      */
  lemma FitsIff(job: Job, payloadSize: int)
    ensures Fits(job, payloadSize) <==>
      payloadSize < 0x1_0000_0000 && forall limit | job.maxSize == Some(limit) :: payloadSize + 32 <= limit
  {
  }

  /** The packaged image of a payload, once it has passed its own verification. */
  function Package(job: Job, payload: seq<byte>): Checked<(seq<byte>, ImageManifest)> {
    if !Fits(job, |payload|) then Err(PayloadTooLarge)
    else
      var record := Encode(job.role, job.flags, |payload|, Crc(payload, 0), job.version);
      if record.Err? then Err(record.error)
      else
        var image := payload + record.value;
        var verdict := Verdict(image, Some(job.role), Some(RecoveryCapable(job.flags)), job.product);
        if verdict.Err? then Err(verdict.error) else Ok((image, verdict.value))
  }

  /** Whether a payload carries the link-time markers its flags require, and no rival product's. */
  predicate ProperlyMarked(job: Job, payload: seq<byte>) {
    && (RecoveryCapable(job.flags) ==> Occurs(RECOVERY_MARKER, payload))
    && (job.version == MULTIBOOT_FORMAT_VERSION ==>
          && Occurs(ProductMarker(ProductBits(job.flags)), payload)
          && !Occurs(ProductMarker(OtherProduct(ProductBits(job.flags))), payload))
  }

  lemma PrepareIsConsistent(role: int, flags: int, maxSize: Option<int>, product: Option<string>)
    requires Prepare(role, flags, maxSize, product).Ok?
    ensures var job := Prepare(role, flags, maxSize, product).value;
            && RoleAndFlagsError(job.role, job.flags, job.version) == None
            && (maxSize.Some? ==> job.maxSize.Some? && job.maxSize.value <= maxSize.value)
            && job.product == product && job.role == role
            && (product.None? ==> job.version == FORMAT_VERSION && job.flags == flags)
            && (product.Some? ==>
                  && job.version == MULTIBOOT_FORMAT_VERSION
                  && ProductByName(product.value) == Some(ProductBits(job.flags))
                  && RecoveryCapable(job.flags)
                  && job.maxSize.Some? && job.maxSize.value <= ProductCapacity(ProductBits(job.flags)))
  {
  }

  /** A request is accepted exactly when, for a known product, the role is firmware, the flags ask for nothing but what
      that product's image has anyway, and without one, role and flags are a version 1 combination; and when the size
      limit, if any, leaves room for the record and fits the format. */
  lemma RequestAcceptedIff(role: int, flags: int, maxSize: Option<int>, product: Option<string>)
    ensures Prepare(role, flags, maxSize, product).Ok? <==>
      && (maxSize.Some? ==> 32 <= maxSize.value && (product.None? ==> maxSize.value <= 0x1_0000_001F))
      && (product.None? ==> role in {1, 2} && flags in {0, 1})
      && (product.Some? ==>
            && role == 2 && product.value in {"appletini", "multitini"}
            && flags in if product.value == "appletini"
                        then {0, 1, 0x100, 0x101, 0x400, 0x401, 0x500, 0x501}
                        else {0, 1, 0x200, 0x201, 0x400, 0x401, 0x600, 0x601})
  {
    if product.Some? && product.value in {"appletini", "multitini"} {
      FlagsCompleted(flags, if product.value == "appletini" then 0x100 else 0x200);
    }
    hide WithBit;
  }

  /** Setting the three bits gives a product's flags exactly when nothing else was set. */
  lemma FlagsCompleted(flags: int, code: int)
    requires code in {0x100, 0x200}
    ensures var full := WithBit(WithBit(WithBit(flags, code), 0x400), 1);
            && (full in {0x501, 0x601} <==> full == code + 0x401)
            && (full == code + 0x401 <==> flags in {0, 1, code, code + 1, 0x400, 0x401, code + 0x400, code + 0x401})
  {
  }

  /** And the job then carries exactly these: the completed flags, and the smaller of the caller's limit and the slot.
      */
  lemma AcceptedJob(role: int, flags: int, maxSize: Option<int>, product: Option<string>)
    requires Prepare(role, flags, maxSize, product).Ok?
    ensures var job := Prepare(role, flags, maxSize, product).value;
            && job.role == role && job.product == product
            && (product.None? ==> job.flags == flags && job.version == 1 && job.maxSize == maxSize)
            && (product.Some? ==>
                  var (code, slot) := if product.value == "appletini" then (0x100, 0x60_0000) else (0x200, 0x7E_0000);
                  && job.version == 2 && job.flags == code + 0x401
                  && job.maxSize == Some(if maxSize.Some? && maxSize.value <= slot then maxSize.value else slot))
  {
    if product.Some? {
      FlagsCompleted(flags, if product.value == "appletini" then 0x100 else 0x200);
    }
    hide WithBit;
  }

  /** Packaging a payload succeeds exactly when it fits and is properly marked; the image then is the payload
      followed by a 32-byte record, and passes verification with everything that was requested of it. */
  lemma PackageOutcome(role: int, flags: int, maxSize: Option<int>, product: Option<string>, payload: seq<byte>)
    requires Prepare(role, flags, maxSize, product).Ok?
    ensures var job := Prepare(role, flags, maxSize, product).value;
            var outcome := Package(job, payload);
            && (outcome.Ok? <==> Fits(job, |payload|) && ProperlyMarked(job, payload))
            && (outcome.Ok? ==>
                  var (image, m) := outcome.value;
                  && |image| == |payload| + MANIFEST_SIZE && payload <= image
                  && (maxSize.Some? ==> |image| <= maxSize.value)
                  && m.payloadSize == |payload| && m.payloadCrc == Crc(payload, 0)
                  && m.role == role && m.flags == job.flags
                  && Verdict(image, Some(role), Some(RecoveryCapable(job.flags)), product) == Ok(m))
  {
    hide Crc, Decode, Encode;
    var job := Prepare(role, flags, maxSize, product).value;
    PrepareIsConsistent(role, flags, maxSize, product);
    if Fits(job, |payload|) {
      CrcFits(payload, 0);
      var record := Encode(job.role, job.flags, |payload|, Crc(payload, 0), job.version);
      EncodeAccepts(job.role, job.flags, |payload|, Crc(payload, 0), job.version);
      DecodeOfEncode(job.role, job.flags, |payload|, Crc(payload, 0), job.version);
      var image := payload + record.value;
      assert image[..|image| - MANIFEST_SIZE] == payload && image[|image| - MANIFEST_SIZE..] == record.value;
    }
  }

  lemma EncodeAccepts(role: int, flags: int, payloadSize: int, payloadCrc: int, version: int)
    requires RoleAndFlagsError(role, flags, version) == None
    requires 0 <= payloadSize <= MAX_U32 && 0 <= payloadCrc <= MAX_U32
    ensures Encode(role, flags, payloadSize, payloadCrc, version).Ok?
  {
    hide Crc, Prefix;
  }

  datatype PackError = Refused(reason: ManifestError) | OsError

  /** The files of the machine. Every operation that touches the disk may fail instead, at any time, but removing a
      file that is there. */
  class FileSystem {
    var files: map<Path, seq<byte>>
    var dirs: set<string>

    constructor ()
      ensures files == map[] && dirs == {}
    {
      files, dirs := map[], {};
    }

    method Open(path: Path) returns (stream: Stream?)
      ensures stream != null ==> fresh(stream) && path in files && stream.content == files[path] && stream.pos == 0
    {
      stream := null;
      if path in files {
        if * {
          stream := new Stream(files[path]);
        }
      }
    }

    /** `tempfile.mkstemp`: creates a file that was not there before. */
    method Create(path: Path) returns (ok: bool)
      modifies this
      ensures dirs == old(dirs)
      ensures ok ==> path !in old(files) && files == old(files)[path := []]
      ensures !ok ==> files == old(files)
    {
      ok := *;
      ok := ok && path !in files;
      if ok {
        files := files[path := []];
      }
    }

    method Write(path: Path, data: seq<byte>) returns (ok: bool)
      requires path in files
      modifies this
      ensures dirs == old(dirs) && path in files
      ensures files == old(files)[path := files[path]]
      ensures ok ==> files[path] == old(files)[path] + data
    {
      ok := *;
      files := files[path := files[path] + if ok then data else []];
    }

    method Replace(source: Path, target: Path) returns (ok: bool)
      requires source in files && source != target
      modifies this
      ensures dirs == old(dirs)
      ensures files == if ok then old(files)[target := old(files)[source]] - {source} else old(files)
    {
      ok := *;
      if ok {
        files := files[target := files[source]] - {source};
      }
    }

    method Unlink(path: Path)
      modifies this
      ensures dirs == old(dirs) && files == old(files) - {path}
    {
      files := files - {path};
    }
  }

  /** The body of the `with` block: copy the payload into the temporary file and append its record. */
  method FillTemp(fs: FileSystem, stream: Stream, temp: Path, job: Job) returns (r: Result<(), PackError>)
    requires temp in fs.files && fs.files[temp] == [] && stream.pos == 0
    requires RoleAndFlagsError(job.role, job.flags, job.version) == None
    requires job.maxSize.Some? ==> MANIFEST_SIZE <= job.maxSize.value
    modifies fs, stream
    ensures fs.dirs == old(fs.dirs) && temp in fs.files && fs.files == old(fs.files)[temp := fs.files[temp]]
    ensures r.Ok? ==>
      && Fits(job, |stream.content|)
      && Encode(job.role, job.flags, |stream.content|, Crc(stream.content, 0), job.version).Ok?
      && fs.files[temp] == stream.content
           + Encode(job.role, job.flags, |stream.content|, Crc(stream.content, 0), job.version).value
    ensures r.Err? && r.error.Refused? ==> r.error.reason == PayloadTooLarge && !Fits(job, |stream.content|)
  {
    hide Crc, Encode;
    var payloadSize: nat, payloadCrc: nat := 0, 0;
    var ok;
    EmptyCrc();
    while true
      invariant fs.dirs == old(fs.dirs) && temp in fs.files && fs.files == old(fs.files)[temp := fs.files[temp]]
      invariant stream.pos == payloadSize <= |stream.content| && Fits(job, payloadSize)
      invariant fs.files[temp] == stream.content[..payloadSize] && payloadCrc == Crc(stream.content[..payloadSize], 0)
      decreases |stream.content| - payloadSize
    {
      ghost var before := stream.content[..payloadSize];
      var read := stream.Read(COPY_CHUNK_SIZE);
      if read.Failed? {
        return Err(OsError);
      }
      var chunk := read.value;
      if chunk == [] {
        break;
      }
      payloadSize := payloadSize + |chunk|;
      if !Fits(job, payloadSize) {
        return Err(Refused(PayloadTooLarge));
      }
      assert before + chunk == stream.content[..payloadSize];
      CrcOfChunks(before, chunk, 0);
      payloadCrc := Crc(chunk, payloadCrc);
      ok := fs.Write(temp, chunk);
      if !ok {
        return Err(OsError);
      }
    }
    assert stream.content[..payloadSize] == stream.content;
    CrcFits(stream.content, 0);
    EncodeAccepts(job.role, job.flags, payloadSize, payloadCrc, job.version);
    var record := Encode(job.role, job.flags, payloadSize, payloadCrc, job.version);
    ok := fs.Write(temp, record.value);
    r := if ok then Ok(()) else Err(OsError);
  }

  /** `append_manifest`: either the destination holds exactly the packaged payload and nothing else changed,
      or every file is as it was before the call. */
  method AppendManifest(
      fs: FileSystem, payloadPath: Path, outputPath: Path, random: string,
      role: int, flags: int, maxSize: Option<int>, product: Option<string>)
    returns (r: Result<ImageManifest, PackError>)
    modifies fs
    ensures r.Err? ==> fs.files == old(fs.files)
    ensures r.Ok? ==>
      && Prepare(role, flags, maxSize, product).Ok?
      && payloadPath in old(fs.files)
      && var outcome := Package(Prepare(role, flags, maxSize, product).value, old(fs.files)[payloadPath]);
         && outcome.Ok? && outcome.value.1 == r.value
         && fs.files == old(fs.files)[outputPath := outcome.value.0]
    ensures r.Err? && r.error.Refused? ==>
      var job := Prepare(role, flags, maxSize, product);
      || job == Err(r.error.reason)
      || (job.Ok? && payloadPath in old(fs.files)
          && Package(job.value, old(fs.files)[payloadPath]) == Err(r.error.reason))
  {
    hide Crc, Encode, Verdict, Occurs;
    var prepared := Prepare(role, flags, maxSize, product);
    if prepared.Err? {
      return Err(Refused(prepared.error));
    }
    var job := prepared.value;
    PrepareIsConsistent(role, flags, maxSize, product);
    if outputPath.dir !in fs.dirs {
      return Err(OsError);
    }
    var stream := fs.Open(payloadPath);
    if stream == null {
      return Err(OsError);
    }
    var temp := Path(outputPath.dir, "." + outputPath.name + "." + random + ".tmp");
    assert |temp.name| > |outputPath.name|;
    var ok := fs.Create(temp);
    if !ok {
      return Err(OsError);
    }
    var filled := FillTemp(fs, stream, temp, job);
    if filled.Err? {
      fs.Unlink(temp);
      return Err(filled.error);
    }
    var packed := fs.Open(temp);
    if packed == null {
      fs.Unlink(temp);
      return Err(OsError);
    }
    var verified := VerifyImage(packed, Some(role), Some(RecoveryCapable(job.flags)), product);
    if verified.Failed? {
      fs.Unlink(temp);
      return Err(OsError);
    }
    if verified.value.Err? {
      fs.Unlink(temp);
      return Err(Refused(verified.value.error));
    }
    ok := fs.Replace(temp, outputPath);
    if !ok {
      fs.Unlink(temp);
      return Err(OsError);
    }
    r := Ok(verified.value.value);
  }
}
