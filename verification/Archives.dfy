/**
 The partitioned archives: an action history or a dependency cache in memory, its save to a byte
 stream and its load from one.
 */
module Archives {
  import opened Wrappers
  import opened Bytes
  import opened LittleEndian
  import opened Sequences
  import Ordinal
  import opened F = ArchiveFormat
  import L = ArchiveLaws

  // ---------------------------------------------------------------- the reader

  class BinaryReader {
    var unread: Bytes

    constructor (stream: Bytes)
      ensures unread == stream
    {
      unread := stream;
    }

    /** None when the stream ends first. */
    method ReadInt32() returns (r: Option<int>)
      modifies this
      ensures Agrees(r, F.ReadInt32(old(unread)), unread)
    {
      if |unread| < 4 {
        return None;
      }
      r := Some(Int32Of(unread[..4]));
      unread := unread[4..];
    }

    method ReadBytes(n: nat) returns (r: Option<Bytes>)
      modifies this
      ensures Agrees(r, F.ReadBytes(n, old(unread)), unread)
    {
      if |unread| < n {
        return None;
      }
      r := Some(unread[..n]);
      unread := unread[n..];
    }
  }

  /** A value read and what is left of the stream, or None for any failure. */
  ghost predicate Agrees<T(!new)>(r: Option<T>, spec: Read<T>, unread: Bytes) {
    if r.Some? then spec == Got(r.value, unread) else spec == Failed
  }

  method ReadPath(reader: BinaryReader) returns (r: Option<Path>)
    modifies reader
    ensures Agrees(r, F.ReadPath(old(reader.unread)), reader.unread)
  {
    hide F.ReadInt32, F.ReadBytes;
    var len := reader.ReadInt32();
    if len.None? || len.value < 0 || len.value > MAX_PATH_LENGTH {
      return None;
    }
    r := reader.ReadBytes(len.value);
  }

  method ReadPayload(schema: Schema, reader: BinaryReader) returns (r: Option<Payload>)
    modifies reader
    ensures Agrees(r, F.ReadPayload(schema, old(reader.unread)), reader.unread)
  {
    if schema.history {
      var digest := reader.ReadBytes(DIGEST_LENGTH);
      return if digest.None? then None else Some(Hash(digest.value));
    }
    var count := reader.ReadInt32();
    if count.None? || count.value < 0 || count.value > MAX_HEADER_COUNT {
      return None;
    }
    var headers := ReadHeaders(count.value, reader);
    r := if headers.None? then None else Some(Headers(headers.value));
  }

  method ReadHeaders(count: nat, reader: BinaryReader) returns (r: Option<seq<Path>>)
    modifies reader
    ensures Agrees(r, F.ReadPaths([], count, old(reader.unread)), reader.unread)
  {
    hide F.ReadPath;
    var headers: seq<Path> := [];
    while |headers| < count
      invariant |headers| <= count
      invariant F.ReadPaths([], count, old(reader.unread)) == F.ReadPaths(headers, count - |headers|, reader.unread)
    {
      var path := ReadPath(reader);
      if path.None? {
        return None;
      }
      headers := headers + [path.value];
    }
    r := Some(headers);
  }

  /** One map; on any structural error the caller drops everything. */
  method ReadPathMap(schema: Schema, reader: BinaryReader) returns (r: Option<Entries>)
    modifies reader
    ensures Agrees(r, F.ReadMap(schema, old(reader.unread)), reader.unread)
  {
    hide F.ReadInt32, F.ReadPath, F.ReadPayload;
    var count := reader.ReadInt32();
    if count.None? || count.value < 0 {
      return None;
    }
    var dest: Entries, j := map[], 0;
    while j < count.value
      invariant 0 <= j <= count.value
      invariant F.ReadMap(schema, old(reader.unread)) == F.ReadEntries(schema, dest, count.value - j, reader.unread)
    {
      var path := ReadPath(reader);
      if path.None? {
        return None;
      }
      var payload := ReadPayload(schema, reader);
      if payload.None? {
        return None;
      }
      dest := dest[path.value := payload.value];
      j := j + 1;
    }
    r := Some(dest);
  }

  method ReadHeader(schema: Schema, version: IoHash, reader: BinaryReader) returns (r: Option<int>)
    modifies reader
    ensures Agrees(r, F.ReadHeader(schema, version, old(reader.unread)), reader.unread)
  {
    hide F.ReadInt32, F.ReadBytes;
    var magic := reader.ReadBytes(4);
    if magic.None? || magic.value != schema.magic {
      return None;
    }
    var format := reader.ReadInt32();
    if format.None? || !Accepts(schema, format.value) {
      return None;
    }
    var stored := reader.ReadBytes(DIGEST_LENGTH);
    if stored.None? || stored.value != version {
      return None;
    }
    var count := reader.ReadInt32();
    if count.None? || count.value != PARTITION_COUNT {
      return None;
    }
    r := format;
  }

  /** All partitions into a staging list, or nothing. */
  method ReadStaged(schema: Schema, version: IoHash, reader: BinaryReader) returns (r: Option<seq<Partition>>)
    modifies reader
    ensures Agrees(r, F.ReadArchive(schema, version, old(reader.unread)), reader.unread)
  {
    hide F.ReadHeader, F.ReadMap;
    var format := ReadHeader(schema, version, reader);
    if format.None? {
      return None;
    }
    var two := TwoMaps(schema, format.value);
    var staged: seq<Partition> := [];
    while |staged| < PARTITION_COUNT
      invariant |staged| <= PARTITION_COUNT
      invariant F.ReadArchive(schema, version, old(reader.unread))
             == F.ReadPartitions(schema, two, staged, PARTITION_COUNT - |staged|, reader.unread)
    {
      var main := ReadPathMap(schema, reader);
      if main.None? {
        return None;
      }
      var content: Option<Entries> := Some(map[]);
      if two {
        content := ReadPathMap(schema, reader);
        if content.None? {
          return None;
        }
      }
      staged := staged + [Partition(main.value, content.value)];
    }
    r := Some(staged);
  }

  // ---------------------------------------------------------------- the writer

  /** The keys of a dictionary in some order, as its enumerator happens to give them. */
  method Enumerate(m: Entries) returns (keys: seq<Path>)
    ensures (set p | p in keys) == m.Keys
  {
    keys := [];
    var left := m.Keys;
    while left != {}
      invariant (set p | p in keys) + left == m.Keys
      decreases |left|
    {
      var p :| p in left;
      left := left - {p};
      keys := keys + [p];
    }
  }

  method WritePaths(paths: seq<Path>) returns (out: Bytes)
    requires forall i :: 0 <= i < |paths| ==> |paths[i]| <= INT32_MAX
    ensures out == PathsBytes(paths)
  {
    hide Blob;
    out := [];
    var i := 0;
    assert [] + PathsBytes(paths) == PathsBytes(paths) && paths[0..] == paths;
    while i < |paths|
      invariant 0 <= i <= |paths|
      invariant out + PathsBytes(paths[i..]) == PathsBytes(paths)
    {
      assert paths[i..][1..] == paths[i + 1..];
      Regroup(out, Blob(paths[i]), PathsBytes(paths[i + 1..]));
      out := out + Blob(paths[i]);
      i := i + 1;
    }
    assert out + [] == out;
  }

  method WritePayload(schema: Schema, p: Payload) returns (out: Bytes)
    requires SizedPayload(schema, p)
    ensures out == PayloadBytes(schema, p)
  {
    match p {
      case Hash(digest) => out := digest;
      case Headers(paths) =>
        out := WritePaths(paths);
        out := Int32Bytes(|paths|) + out;
    }
  }

  lemma EntriesTurn(schema: Schema, keys: seq<Path>, i: nat, m: Entries)
    requires i < |keys| && Writable(schema, keys[i..], m)
    ensures keys[i] in m && |keys[i]| <= INT32_MAX && SizedPayload(schema, m[keys[i]])
    ensures Writable(schema, keys[i + 1..], m)
    ensures EntriesBytes(schema, keys[i..], m)
         == EntryBytes(schema, keys[i], m[keys[i]]) + EntriesBytes(schema, keys[i + 1..], m)
  {
    hide SizedPayload, EntryBytes;
    assert keys[i..][0] == keys[i] && keys[i..][1..] == keys[i + 1..];
  }

  lemma NoEntries(schema: Schema, m: Entries)
    ensures Writable(schema, [], m) && EntriesBytes(schema, [], m) == []
  {
  }

  lemma KeysAreWritable(schema: Schema, keys: seq<Path>, m: Entries)
    requires Sized(schema, m) && Ordinal.IsSorted(keys, m.Keys)
    ensures Writable(schema, keys, m)
    ensures MapBytes(schema, m) == Int32Bytes(|m|) + EntriesBytes(schema, keys, m)
  {
    hide SizedPayload, EntriesBytes;
    Ordinal.SortedIs(keys, m.Keys);
    assert forall i :: 0 <= i < |keys| ==> keys[i] in keys;
  }

  /** The bytes depend on the contents of the dictionary alone, not on its enumeration order. */
  method WriteMap(schema: Schema, m: Entries) returns (out: Bytes)
    requires Sized(schema, m)
    ensures out == MapBytes(schema, m)
  {
    hide Int32Bytes, SizedPayload, PayloadBytes, Blob, Writable, EntriesBytes, MapBytes;
    var keys := Enumerate(m);
    keys := Ordinal.Sort(keys);
    KeysAreWritable(schema, keys, m);
    out := Int32Bytes(|m|);
    var i := 0;
    assert keys[0..] == keys;
    while i < |keys|
      invariant 0 <= i <= |keys|
      invariant Writable(schema, keys[i..], m)
      invariant out + EntriesBytes(schema, keys[i..], m) == MapBytes(schema, m)
    {
      var path := keys[i];
      EntriesTurn(schema, keys, i, m);
      var payload := WritePayload(schema, m[path]);
      Regroup(out, EntryBytes(schema, path, m[path]), EntriesBytes(schema, keys[i + 1..], m));
      out := out + (Blob(path) + payload);
      i := i + 1;
    }
    NoEntries(schema, m);
    assert keys[i..] == [] && out + [] == out;
  }

  // ---------------------------------------------------------------- the archive in memory

  class Archive {
    const schema: Schema
    const version: IoHash
    var partitions: seq<Partition>

    ghost predicate Valid()
      reads this
    {
      Known(schema) && |partitions| == PARTITION_COUNT
    }

    /** Open over the bytes of the archive file, if there is one. */
    constructor Open(schema: Schema, version: IoHash, file: Option<Bytes>)
      requires Known(schema)
      ensures Valid() && this.schema == schema && this.version == version
      ensures partitions == if file.None? then NoPartitions() else Load(schema, version, file.value)
    {
      this.schema, this.version, partitions := schema, version, NoPartitions();
      new;
      if file.Some? {
        LoadFromDisk(file.value);
      }
    }

    /** Staged first, committed only when every partition has been read. */
    method LoadFromDisk(file: Bytes)
      requires Valid() && partitions == NoPartitions()
      modifies this
      ensures Valid() && partitions == Load(schema, version, file)
    {
      hide ReadArchive;
      var reader := new BinaryReader(file);
      var staged := ReadStaged(schema, version, reader);
      L.LoadIsGood(schema, version, file);
      if staged.Some? {
        partitions := staged.value;
      }
    }

    method Save() returns (file: Bytes)
      requires Valid() && Storable(schema, partitions)
      ensures file == SaveBytes(schema, version, partitions)
    {
      hide MapBytes, Sized, HeaderBytes;
      file := HeaderBytes(schema, schema.format, version);
      ghost var two := TwoMaps(schema, schema.format);
      var i := 0;
      assert partitions[0..] == partitions;
      while i < |partitions|
        invariant 0 <= i <= |partitions|
        invariant file + PartitionsBytes(schema, two, partitions[i..]) == SaveBytes(schema, version, partitions)
      {
        ghost var part := partitions[i];
        assert partitions[i..][1..] == partitions[i + 1..];
        Regroup(file, PartitionBytes(schema, two, part), PartitionsBytes(schema, two, partitions[i + 1..]));
        Regroup(file, MapBytes(schema, part.main), if two then MapBytes(schema, part.content) else []);
        var main := WriteMap(schema, partitions[i].main);
        file := file + main;
        if TwoMaps(schema, schema.format) {
          var content := WriteMap(schema, partitions[i].content);
          file := file + content;
        } else {
          assert file + [] == file;
        }
        i := i + 1;
      }
      assert file + [] == file;
    }
  }

  /** Close and open again: the reopened archive holds what the closed one did, if and only if that was
      within the limits of the load. */
  method SaveAndReopen(archive: Archive) returns (reopened: Archive)
    requires archive.Valid() && Storable(archive.schema, archive.partitions)
    ensures reopened.Valid() && reopened.schema == archive.schema
    ensures reopened.partitions == archive.partitions <==> L.Loadable(true, archive.partitions)
    ensures !L.Loadable(true, archive.partitions) ==> reopened.partitions == NoPartitions()
  {
    hide Load, SaveBytes, L.Loadable;
    var file := archive.Save();
    L.RoundTrip(archive.schema, archive.version, archive.partitions);
    reopened := new Archive.Open(archive.schema, archive.version, Some(file));
  }
}
