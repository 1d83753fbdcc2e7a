/**
 The binary layout shared by the action history and the dependency cache, as functions: what a save
 writes, and what a load makes of any bytes.
 */
module ArchiveFormat {
  import opened Bytes
  import opened LittleEndian
  import opened Ordinal

  const PARTITION_COUNT: nat := 256
  const MAX_PATH_LENGTH: nat := 4096
  const MAX_HEADER_COUNT: nat := 1_000_000

  /** What an archive stores for a path: a digest in the history, a header list in the dependency cache. */
  datatype Payload = Hash(digest: IoHash) | Headers(paths: seq<Path>)

  type Entries = map<Path, Payload>

  /** One partition: the map every format has, and the content-hash map of the later history format. */
  datatype Partition = Partition(main: Entries, content: Entries)

  const EMPTY: Partition := Partition(map[], map[])

  /** A kind of archive: its magic, its current format, and which formats it accepts. */
  datatype Schema = Schema(magic: Bytes, history: bool, format: int)

  /** "XAH1", with the content-hash map since format 2. */
  const HISTORY: Schema := Schema([0x58, 0x41, 0x48, 0x31], true, 2)

  /** "XCDC". */
  const DEPENDENCIES: Schema := Schema([0x58, 0x43, 0x44, 0x43], false, 1)

  predicate Known(schema: Schema) {
    schema == HISTORY || schema == DEPENDENCIES
  }

  predicate Accepts(schema: Schema, format: int) {
    format == schema.format || (schema.history && format == 1)
  }

  /** Whether a content-hash map follows each main map. */
  predicate TwoMaps(schema: Schema, format: int) {
    schema.history && format == 2
  }

  // ---------------------------------------------------------------- what can be written

  /** Lengths and counts fit the 32-bit fields, and the payloads are those of the archive. */
  predicate SizedPayload(schema: Schema, p: Payload) {
    if schema.history then p.Hash?
    else p.Headers? && |p.paths| <= INT32_MAX && forall i :: 0 <= i < |p.paths| ==> |p.paths[i]| <= INT32_MAX
  }

  predicate Sized(schema: Schema, m: Entries) {
    |m| <= INT32_MAX && forall p :: p in m ==> |p| <= INT32_MAX && SizedPayload(schema, m[p])
  }

  predicate SizedPartition(schema: Schema, part: Partition) {
    Sized(schema, part.main) && Sized(schema, part.content) && (!schema.history ==> part.content == map[])
  }

  /** The state an open archive holds. */
  predicate Storable(schema: Schema, parts: seq<Partition>) {
    |parts| == PARTITION_COUNT && forall i :: 0 <= i < |parts| ==> SizedPartition(schema, parts[i])
  }

  // ---------------------------------------------------------------- writing

  function PathsBytes(paths: seq<Path>): Bytes
    requires forall i :: 0 <= i < |paths| ==> |paths[i]| <= INT32_MAX
  {
    if paths == [] then [] else Blob(paths[0]) + PathsBytes(paths[1..])
  }

  function PayloadBytes(schema: Schema, p: Payload): Bytes
    requires SizedPayload(schema, p)
  {
    match p
    case Hash(digest) => digest
    case Headers(paths) => Int32Bytes(|paths|) + PathsBytes(paths)
  }

  function EntryBytes(schema: Schema, path: Path, p: Payload): Bytes
    requires |path| <= INT32_MAX && SizedPayload(schema, p)
  {
    Blob(path) + PayloadBytes(schema, p)
  }

  predicate Writable(schema: Schema, keys: seq<Path>, m: Entries) {
    forall i :: 0 <= i < |keys| ==> keys[i] in m && |keys[i]| <= INT32_MAX && SizedPayload(schema, m[keys[i]])
  }

  function EntriesBytes(schema: Schema, keys: seq<Path>, m: Entries): Bytes
    requires Writable(schema, keys, m)
  {
    if keys == [] then [] else EntryBytes(schema, keys[0], m[keys[0]]) + EntriesBytes(schema, keys[1..], m)
  }

  /** A map: its size, and its entries in ordinal order of their paths. */
  ghost function MapBytes(schema: Schema, m: Entries): Bytes
    requires Sized(schema, m)
  {
    Int32Bytes(|m|) + EntriesBytes(schema, Sorted(m.Keys), m)
  }

  ghost function PartitionBytes(schema: Schema, two: bool, part: Partition): Bytes
    requires SizedPartition(schema, part)
  {
    MapBytes(schema, part.main) + (if two then MapBytes(schema, part.content) else [])
  }

  ghost function PartitionsBytes(schema: Schema, two: bool, parts: seq<Partition>): Bytes
    requires forall i :: 0 <= i < |parts| ==> SizedPartition(schema, parts[i])
  {
    if parts == [] then [] else PartitionBytes(schema, two, parts[0]) + PartitionsBytes(schema, two, parts[1..])
  }

  function HeaderBytes(schema: Schema, format: int, version: IoHash): Bytes
    requires IsInt32(format)
  {
    schema.magic + Int32Bytes(format) + version + Int32Bytes(PARTITION_COUNT)
  }

  ghost function ArchiveBytes(schema: Schema, format: int, version: IoHash, parts: seq<Partition>): Bytes
    requires IsInt32(format) && Storable(schema, parts)
  {
    HeaderBytes(schema, format, version) + PartitionsBytes(schema, TwoMaps(schema, format), parts)
  }

  /** What a save writes. */
  ghost function SaveBytes(schema: Schema, version: IoHash, parts: seq<Partition>): Bytes
    requires Known(schema) && Storable(schema, parts)
  {
    ArchiveBytes(schema, schema.format, version, parts)
  }

  // ---------------------------------------------------------------- reading

  /** A value and the bytes after it, or a structural error or the end of the stream. */
  datatype Read<+T> = Got(value: T, rest: Bytes) | Failed

  function ReadInt32(s: Bytes): Read<int> {
    if |s| < 4 then Failed else Got(Int32Of(s[..4]), s[4..])
  }

  function ReadBytes(n: nat, s: Bytes): Read<Bytes> {
    if |s| < n then Failed else Got(s[..n], s[n..])
  }

  function ReadPath(s: Bytes): Read<Path> {
    var len := ReadInt32(s);
    if len.Failed? || len.value < 0 || len.value > MAX_PATH_LENGTH then Failed
    else ReadBytes(len.value, len.rest)
  }

  /** The paths read so far, and n more. */
  function ReadPaths(read: seq<Path>, n: nat, s: Bytes): Read<seq<Path>>
    decreases n
  {
    if n == 0 then Got(read, s)
    else
      var p := ReadPath(s);
      if p.Failed? then Failed else ReadPaths(read + [p.value], n - 1, p.rest)
  }

  function ReadPayload(schema: Schema, s: Bytes): Read<Payload> {
    if schema.history then
      var h := ReadBytes(DIGEST_LENGTH, s);
      if h.Failed? then Failed else Got(Hash(h.value), h.rest)
    else
      var n := ReadInt32(s);
      if n.Failed? || n.value < 0 || n.value > MAX_HEADER_COUNT then Failed
      else
        var ps := ReadPaths([], n.value, n.rest);
        if ps.Failed? then Failed else Got(Headers(ps.value), ps.rest)
  }

  /** The entries read so far, and n more; a later entry for the same path wins. */
  function ReadEntries(schema: Schema, read: Entries, n: nat, s: Bytes): Read<Entries>
    decreases n
  {
    if n == 0 then Got(read, s)
    else
      var path := ReadPath(s);
      if path.Failed? then Failed
      else
        var p := ReadPayload(schema, path.rest);
        if p.Failed? then Failed else ReadEntries(schema, read[path.value := p.value], n - 1, p.rest)
  }

  function ReadMap(schema: Schema, s: Bytes): Read<Entries> {
    var n := ReadInt32(s);
    if n.Failed? || n.value < 0 then Failed else ReadEntries(schema, map[], n.value, n.rest)
  }

  function ReadPartition(schema: Schema, two: bool, s: Bytes): Read<Partition> {
    var main := ReadMap(schema, s);
    if main.Failed? then Failed
    else if !two then Got(Partition(main.value, map[]), main.rest)
    else
      var content := ReadMap(schema, main.rest);
      if content.Failed? then Failed else Got(Partition(main.value, content.value), content.rest)
  }

  function ReadPartitions(schema: Schema, two: bool, read: seq<Partition>, n: nat, s: Bytes): Read<seq<Partition>>
    decreases n
  {
    if n == 0 then Got(read, s)
    else
      var part := ReadPartition(schema, two, s);
      if part.Failed? then Failed else ReadPartitions(schema, two, read + [part.value], n - 1, part.rest)
  }

  /** The header of an archive of this schema and version: its format. */
  function ReadHeader(schema: Schema, version: IoHash, s: Bytes): Read<int> {
    var magic := ReadBytes(4, s);
    if magic.Failed? || magic.value != schema.magic then Failed
    else
      var format := ReadInt32(magic.rest);
      if format.Failed? || !Accepts(schema, format.value) then Failed
      else
        var stored := ReadBytes(DIGEST_LENGTH, format.rest);
        if stored.Failed? || stored.value != version then Failed
        else
          var count := ReadInt32(stored.rest);
          if count.Failed? || count.value != PARTITION_COUNT then Failed else Got(format.value, count.rest)
  }

  function ReadArchive(schema: Schema, version: IoHash, s: Bytes): Read<seq<Partition>> {
    var format := ReadHeader(schema, version, s);
    if format.Failed? then Failed
    else ReadPartitions(schema, TwoMaps(schema, format.value), [], PARTITION_COUNT, format.rest)
  }

  function NoPartitions(): (parts: seq<Partition>)
    ensures |parts| == PARTITION_COUNT && forall i :: 0 <= i < |parts| ==> parts[i] == EMPTY
  {
    seq(PARTITION_COUNT, _ => EMPTY)
  }

  /** What a load leaves in memory: the whole archive, or nothing. */
  function Load(schema: Schema, version: IoHash, s: Bytes): seq<Partition> {
    var r := ReadArchive(schema, version, s);
    if r.Got? then r.value else NoPartitions()
  }
}
