/** Loading what was saved, loading less than was saved, and loading anything at all. */
module ArchiveLaws {
  import opened Bytes
  import opened LittleEndian
  import opened Ordinal
  import opened Sequences
  import opened ArchiveFormat

  // ---------------------------------------------------------------- what can be read back

  predicate ShortPaths(ps: seq<Path>) {
    forall i :: 0 <= i < |ps| ==> |ps[i]| <= MAX_PATH_LENGTH
  }

  predicate LoadablePayload(p: Payload) {
    p.Headers? ==> |p.paths| <= MAX_HEADER_COUNT && ShortPaths(p.paths)
  }

  predicate LoadableEntry(path: Path, p: Payload) {
    |path| <= MAX_PATH_LENGTH && LoadablePayload(p)
  }

  predicate LoadableMap(m: Entries) {
    forall p :: p in m ==> LoadableEntry(p, m[p])
  }

  predicate LoadablePartition(two: bool, part: Partition) {
    LoadableMap(part.main) && (two ==> LoadableMap(part.content))
  }

  /** Within the limits a load checks. */
  predicate Loadable(two: bool, parts: seq<Partition>) {
    forall i :: 0 <= i < |parts| ==> LoadablePartition(two, parts[i])
  }

  // ---------------------------------------------------------------- reading what was written

  lemma ReadInt32Of(n: int, rest: Bytes)
    requires IsInt32(n)
    ensures ReadInt32(Int32Bytes(n) + rest) == Got(n, rest)
  {
    hide Int32Bytes, Int32Of;
    var s := Int32Bytes(n) + rest;
    assert s[..4] == Int32Bytes(n) && s[4..] == rest;
    Int32RoundTrip(n);
  }

  lemma ReadBytesOf(b: Bytes, rest: Bytes)
    ensures ReadBytes(|b|, b + rest) == Got(b, rest)
  {
    assert (b + rest)[..|b|] == b && (b + rest)[|b|..] == rest;
  }

  lemma ReadPathOf(p: Path, rest: Bytes)
    requires |p| <= INT32_MAX
    ensures ReadPath(Blob(p) + rest) == if |p| <= MAX_PATH_LENGTH then Got(p, rest) else Failed
  {
    hide ReadInt32, ReadBytes, Int32Bytes;
    Regroup(Int32Bytes(|p|), p, rest);
    ReadInt32Of(|p|, p + rest);
    ReadBytesOf(p, rest);
  }

  lemma {:induction false} ReadPathsOf(read: seq<Path>, ps: seq<Path>, rest: Bytes)
    requires forall i :: 0 <= i < |ps| ==> |ps[i]| <= INT32_MAX
    ensures ReadPaths(read, |ps|, PathsBytes(ps) + rest)
         == if ShortPaths(ps) then Got(read + ps, rest) else Failed
    decreases |ps|
  {
    hide ReadPath, Blob;
    if ps == [] {
      assert PathsBytes(ps) + rest == rest && read + ps == read;
    } else {
      Regroup(Blob(ps[0]), PathsBytes(ps[1..]), rest);
      ReadPathOf(ps[0], PathsBytes(ps[1..]) + rest);
      ReadPathsOf(read + [ps[0]], ps[1..], rest);
      assert read + [ps[0]] + ps[1..] == read + ps;
      ShortTail(ps);
    }
  }

  lemma ShortTail(ps: seq<Path>)
    requires ps != []
    ensures ShortPaths(ps) <==> |ps[0]| <= MAX_PATH_LENGTH && ShortPaths(ps[1..])
  {
    if ShortPaths(ps[1..]) {
      forall i | 0 < i < |ps| ensures |ps[i]| == |ps[1..][i - 1]| {
      }
    }
  }

  lemma ReadPayloadOf(schema: Schema, p: Payload, rest: Bytes)
    requires SizedPayload(schema, p)
    ensures ReadPayload(schema, PayloadBytes(schema, p) + rest)
         == if LoadablePayload(p) then Got(p, rest) else Failed
  {
    hide ReadInt32, ReadBytes, Int32Bytes, ReadPaths, PathsBytes;
    if schema.history {
      ReadBytesOf(p.digest, rest);
    } else {
      Regroup(Int32Bytes(|p.paths|), PathsBytes(p.paths), rest);
      ReadInt32Of(|p.paths|, PathsBytes(p.paths) + rest);
      ReadPathsOf([], p.paths, rest);
      assert [] + p.paths == p.paths;
    }
  }

  /** The entries of `m` for these keys, put one after the other into `read`. */
  function Put(read: Entries, keys: seq<Path>, m: Entries): Entries
    requires forall i :: 0 <= i < |keys| ==> keys[i] in m
    decreases |keys|
  {
    if keys == [] then read else Put(read[keys[0] := m[keys[0]]], keys[1..], m)
  }

  predicate LoadableKeys(keys: seq<Path>, m: Entries)
    requires forall i :: 0 <= i < |keys| ==> keys[i] in m
  {
    forall i :: 0 <= i < |keys| ==> LoadableEntry(keys[i], m[keys[i]])
  }

  lemma LoadableTail(keys: seq<Path>, m: Entries)
    requires keys != [] && forall i :: 0 <= i < |keys| ==> keys[i] in m
    ensures LoadableKeys(keys, m) <==> LoadableEntry(keys[0], m[keys[0]]) && LoadableKeys(keys[1..], m)
  {
    hide LoadableEntry;
    if LoadableKeys(keys[1..], m) {
      forall i | 0 < i < |keys| ensures keys[i] == keys[1..][i - 1] {
      }
    }
  }

  lemma {:induction false} ReadEntriesOf(schema: Schema, read: Entries, keys: seq<Path>, m: Entries, rest: Bytes)
    requires Writable(schema, keys, m)
    ensures ReadEntries(schema, read, |keys|, EntriesBytes(schema, keys, m) + rest)
         == if LoadableKeys(keys, m) then Got(Put(read, keys, m), rest) else Failed
    decreases |keys|
  {
    hide ReadPath, ReadPayload, Blob, PayloadBytes, SizedPayload, LoadablePayload;
    if keys == [] {
      assert EntriesBytes(schema, keys, m) + rest == rest;
    } else {
      var path, p := keys[0], m[keys[0]];
      var more := EntriesBytes(schema, keys[1..], m) + rest;
      Regroup(EntryBytes(schema, path, p), EntriesBytes(schema, keys[1..], m), rest);
      Regroup(Blob(path), PayloadBytes(schema, p), more);
      ReadPathOf(path, PayloadBytes(schema, p) + more);
      ReadPayloadOf(schema, p, more);
      LoadableTail(keys, m);
      ReadEntriesOf(schema, read[path := p], keys[1..], m, rest);
    }
  }

  lemma {:induction false} PutIs(read: Entries, keys: seq<Path>, m: Entries, p: Path)
    requires forall i :: 0 <= i < |keys| ==> keys[i] in m
    ensures p in Put(read, keys, m) <==> p in read || p in keys
    ensures p in keys ==> Put(read, keys, m)[p] == m[p]
    ensures p in read && p !in keys ==> Put(read, keys, m)[p] == read[p]
    decreases |keys|
  {
    if keys != [] {
      PutIs(read[keys[0] := m[keys[0]]], keys[1..], m, p);
      assert keys == [keys[0]] + keys[1..];
    }
  }

  lemma PutAll(m: Entries, keys: seq<Path>)
    requires IsSorted(keys, m.Keys)
    ensures forall i :: 0 <= i < |keys| ==> keys[i] in m
    ensures Put(map[], keys, m) == m && |keys| == |m|
  {
    assert forall i :: 0 <= i < |keys| ==> keys[i] in keys;
    forall p ensures p in Put(map[], keys, m) <==> p in m
    {
      PutIs(map[], keys, m, p);
    }
    forall p | p in m ensures Put(map[], keys, m)[p] == m[p]
    {
      PutIs(map[], keys, m, p);
    }
    SortedLength(keys, m.Keys);
  }

  lemma {:induction false} SortedLength(keys: seq<Path>, s: set<Path>)
    requires IsSorted(keys, s)
    ensures |keys| == |s|
    decreases |keys|
  {
    SortedEmpty(keys, s);
    if keys != [] {
      assert keys[0] in s;
      SortedTail(keys, s);
      SortedLength(keys[1..], s - {keys[0]});
    }
  }

  lemma ReadMapOf(schema: Schema, m: Entries, rest: Bytes)
    requires Sized(schema, m)
    ensures ReadMap(schema, MapBytes(schema, m) + rest) == if LoadableMap(m) then Got(m, rest) else Failed
  {
    hide ReadEntries, EntriesBytes, Int32Bytes, ReadInt32, Put, SizedPayload, LoadableEntry;
    var keys := Sorted(m.Keys);
    PutAll(m, keys);
    Regroup(Int32Bytes(|m|), EntriesBytes(schema, keys, m), rest);
    ReadInt32Of(|m|, EntriesBytes(schema, keys, m) + rest);
    ReadEntriesOf(schema, map[], keys, m, rest);
    assert LoadableKeys(keys, m) <==> LoadableMap(m) by {
      if LoadableKeys(keys, m) {
        forall p | p in m ensures LoadableEntry(p, m[p]) {
          assert p in keys;
        }
      }
    }
  }

  /** The partition a load can give back: one without content hashes if the format has none. */
  function Kept(two: bool, part: Partition): Partition {
    if two then part else part.(content := map[])
  }

  lemma ReadPartitionOf(schema: Schema, two: bool, part: Partition, rest: Bytes)
    requires SizedPartition(schema, part)
    ensures ReadPartition(schema, two, PartitionBytes(schema, two, part) + rest)
         == if LoadablePartition(two, part) then Got(Kept(two, part), rest) else Failed
  {
    hide ReadMap, MapBytes, Sized, LoadableMap;
    if two {
      Regroup(MapBytes(schema, part.main), MapBytes(schema, part.content), rest);
      ReadMapOf(schema, part.main, MapBytes(schema, part.content) + rest);
      ReadMapOf(schema, part.content, rest);
    } else {
      assert MapBytes(schema, part.main) + [] == MapBytes(schema, part.main);
      ReadMapOf(schema, part.main, rest);
    }
  }

  function KeptAll(two: bool, parts: seq<Partition>): (r: seq<Partition>)
    ensures |r| == |parts| && forall i :: 0 <= i < |parts| ==> r[i] == Kept(two, parts[i])
  {
    seq(|parts|, i requires 0 <= i < |parts| => Kept(two, parts[i]))
  }

  lemma LoadablePartitionsTail(two: bool, parts: seq<Partition>)
    requires parts != []
    ensures Loadable(two, parts) <==> LoadablePartition(two, parts[0]) && Loadable(two, parts[1..])
  {
    hide LoadablePartition;
    if Loadable(two, parts[1..]) {
      forall i | 0 < i < |parts| ensures parts[i] == parts[1..][i - 1] {
      }
    }
  }

  lemma {:induction false} ReadPartitionsOf(
    schema: Schema, two: bool, read: seq<Partition>, parts: seq<Partition>, rest: Bytes)
    requires forall i :: 0 <= i < |parts| ==> SizedPartition(schema, parts[i])
    ensures ReadPartitions(schema, two, read, |parts|, PartitionsBytes(schema, two, parts) + rest)
         == if Loadable(two, parts) then Got(read + KeptAll(two, parts), rest) else Failed
    decreases |parts|
  {
    hide ReadPartition, PartitionBytes, SizedPartition, LoadablePartition;
    if parts == [] {
      assert PartitionsBytes(schema, two, parts) + rest == rest && read + KeptAll(two, parts) == read;
    } else {
      var more := PartitionsBytes(schema, two, parts[1..]) + rest;
      Regroup(PartitionBytes(schema, two, parts[0]), PartitionsBytes(schema, two, parts[1..]), rest);
      ReadPartitionOf(schema, two, parts[0], more);
      LoadablePartitionsTail(two, parts);
      ReadPartitionsOf(schema, two, read + [Kept(two, parts[0])], parts[1..], rest);
      assert read + [Kept(two, parts[0])] + KeptAll(two, parts[1..]) == read + KeptAll(two, parts);
    }
  }

  lemma ReadHeaderOf(schema: Schema, format: int, version: IoHash, rest: Bytes)
    requires Known(schema) && Accepts(schema, format)
    ensures ReadHeader(schema, version, HeaderBytes(schema, format, version) + rest) == Got(format, rest)
  {
    hide ReadInt32, ReadBytes, Int32Bytes;
    var count := Int32Bytes(PARTITION_COUNT);
    Regroup(schema.magic + Int32Bytes(format) + version, count, rest);
    Regroup(schema.magic + Int32Bytes(format), version, count + rest);
    Regroup(schema.magic, Int32Bytes(format), version + (count + rest));
    ReadBytesOf(schema.magic, Int32Bytes(format) + (version + (count + rest)));
    ReadInt32Of(format, version + (count + rest));
    ReadBytesOf(version, count + rest);
    ReadInt32Of(PARTITION_COUNT, rest);
  }

  /** Reading an archive, with anything after it. */
  lemma ReadArchiveOf(schema: Schema, format: int, version: IoHash, parts: seq<Partition>, rest: Bytes)
    requires Known(schema) && Accepts(schema, format) && Storable(schema, parts)
    ensures var two := TwoMaps(schema, format);
            ReadArchive(schema, version, ArchiveBytes(schema, format, version, parts) + rest)
            == if Loadable(two, parts) then Got(KeptAll(two, parts), rest) else Failed
  {
    hide ReadHeader, HeaderBytes, ReadPartitions, PartitionsBytes, SizedPartition, Loadable;
    var two := TwoMaps(schema, format);
    Regroup(HeaderBytes(schema, format, version), PartitionsBytes(schema, two, parts), rest);
    ReadHeaderOf(schema, format, version, PartitionsBytes(schema, two, parts) + rest);
    ReadPartitionsOf(schema, two, [], parts, rest);
    assert [] + KeptAll(two, parts) == KeptAll(two, parts);
  }

  // ---------------------------------------------------------------- reading with more bytes at the end

  /** A read that succeeds reads the same from a longer stream. */
  ghost predicate Extends<T>(short: Read<T>, long: Read<T>, more: Bytes) {
    short.Got? ==> long == Got(short.value, short.rest + more)
  }

  lemma ReadInt32Extends(s: Bytes, more: Bytes)
    ensures Extends(ReadInt32(s), ReadInt32(s + more), more)
  {
    if |s| >= 4 {
      assert (s + more)[..4] == s[..4] && (s + more)[4..] == s[4..] + more;
    }
  }

  lemma ReadBytesExtends(n: nat, s: Bytes, more: Bytes)
    ensures Extends(ReadBytes(n, s), ReadBytes(n, s + more), more)
  {
    if |s| >= n {
      assert (s + more)[..n] == s[..n] && (s + more)[n..] == s[n..] + more;
    }
  }

  lemma ReadPathExtends(s: Bytes, more: Bytes)
    ensures Extends(ReadPath(s), ReadPath(s + more), more)
  {
    hide ReadInt32, ReadBytes;
    ReadInt32Extends(s, more);
    var len := ReadInt32(s);
    if len.Got? && 0 <= len.value {
      ReadBytesExtends(len.value, len.rest, more);
    }
  }

  lemma {:induction false} ReadPathsExtends(read: seq<Path>, n: nat, s: Bytes, more: Bytes)
    ensures Extends(ReadPaths(read, n, s), ReadPaths(read, n, s + more), more)
    decreases n
  {
    hide ReadPath;
    if n > 0 {
      ReadPathExtends(s, more);
      var p := ReadPath(s);
      if p.Got? {
        ReadPathsExtends(read + [p.value], n - 1, p.rest, more);
      }
    }
  }

  lemma ReadPayloadExtends(schema: Schema, s: Bytes, more: Bytes)
    ensures Extends(ReadPayload(schema, s), ReadPayload(schema, s + more), more)
  {
    hide ReadInt32, ReadBytes, ReadPaths;
    ReadBytesExtends(DIGEST_LENGTH, s, more);
    ReadInt32Extends(s, more);
    var n := ReadInt32(s);
    if n.Got? && 0 <= n.value {
      ReadPathsExtends([], n.value, n.rest, more);
    }
  }

  lemma {:induction false} ReadEntriesExtends(schema: Schema, read: Entries, n: nat, s: Bytes, more: Bytes)
    ensures Extends(ReadEntries(schema, read, n, s), ReadEntries(schema, read, n, s + more), more)
    decreases n
  {
    hide ReadPath, ReadPayload;
    if n > 0 {
      ReadPathExtends(s, more);
      var path := ReadPath(s);
      if path.Got? {
        ReadPayloadExtends(schema, path.rest, more);
        var p := ReadPayload(schema, path.rest);
        if p.Got? {
          ReadEntriesExtends(schema, read[path.value := p.value], n - 1, p.rest, more);
        }
      }
    }
  }

  lemma ReadMapExtends(schema: Schema, s: Bytes, more: Bytes)
    ensures Extends(ReadMap(schema, s), ReadMap(schema, s + more), more)
  {
    hide ReadInt32, ReadEntries;
    ReadInt32Extends(s, more);
    var n := ReadInt32(s);
    if n.Got? && 0 <= n.value {
      ReadEntriesExtends(schema, map[], n.value, n.rest, more);
    }
  }

  lemma ReadPartitionExtends(schema: Schema, two: bool, s: Bytes, more: Bytes)
    ensures Extends(ReadPartition(schema, two, s), ReadPartition(schema, two, s + more), more)
  {
    hide ReadMap;
    ReadMapExtends(schema, s, more);
    var main := ReadMap(schema, s);
    if main.Got? {
      ReadMapExtends(schema, main.rest, more);
    }
  }

  lemma {:induction false} ReadPartitionsExtends(
    schema: Schema, two: bool, read: seq<Partition>, n: nat, s: Bytes, more: Bytes)
    ensures Extends(ReadPartitions(schema, two, read, n, s), ReadPartitions(schema, two, read, n, s + more), more)
    decreases n
  {
    hide ReadPartition;
    if n > 0 {
      ReadPartitionExtends(schema, two, s, more);
      var part := ReadPartition(schema, two, s);
      if part.Got? {
        ReadPartitionsExtends(schema, two, read + [part.value], n - 1, part.rest, more);
      }
    }
  }

  lemma ReadHeaderExtends(schema: Schema, version: IoHash, s: Bytes, more: Bytes)
    ensures Extends(ReadHeader(schema, version, s), ReadHeader(schema, version, s + more), more)
  {
    hide ReadInt32, ReadBytes;
    ReadBytesExtends(4, s, more);
    var magic := ReadBytes(4, s);
    if magic.Got? {
      ReadInt32Extends(magic.rest, more);
      var format := ReadInt32(magic.rest);
      if format.Got? {
        ReadBytesExtends(DIGEST_LENGTH, format.rest, more);
        var stored := ReadBytes(DIGEST_LENGTH, format.rest);
        if stored.Got? {
          ReadInt32Extends(stored.rest, more);
        }
      }
    }
  }

  lemma ReadArchiveExtends(schema: Schema, version: IoHash, s: Bytes, more: Bytes)
    ensures Extends(ReadArchive(schema, version, s), ReadArchive(schema, version, s + more), more)
  {
    hide ReadHeader, ReadPartitions;
    ReadHeaderExtends(schema, version, s, more);
    var format := ReadHeader(schema, version, s);
    if format.Got? {
      ReadPartitionsExtends(schema, TwoMaps(schema, format.value), [], PARTITION_COUNT, format.rest, more);
    }
  }

  // ---------------------------------------------------------------- whatever is read could be saved

  lemma {:induction false} ReadPathsShort(read: seq<Path>, n: nat, s: Bytes)
    requires ShortPaths(read)
    ensures var r := ReadPaths(read, n, s); r.Got? ==> ShortPaths(r.value) && |r.value| == |read| + n
    decreases n
  {
    hide ReadInt32;
    if n > 0 {
      var p := ReadPath(s);
      if p.Got? {
        ReadPathsShort(read + [p.value], n - 1, p.rest);
      }
    }
  }

  lemma ReadPayloadGood(schema: Schema, s: Bytes)
    ensures var r := ReadPayload(schema, s); r.Got? ==> SizedPayload(schema, r.value) && LoadablePayload(r.value)
  {
    hide ReadInt32, ReadPaths, ReadBytes;
    if !schema.history {
      var n := ReadInt32(s);
      if n.Got? && 0 <= n.value {
        ReadPathsShort([], n.value, n.rest);
      }
    }
  }

  ghost predicate GoodEntries(schema: Schema, m: Entries) {
    LoadableMap(m) && forall p :: p in m ==> SizedPayload(schema, m[p])
  }

  lemma {:induction false} ReadEntriesGood(schema: Schema, read: Entries, n: nat, s: Bytes)
    requires GoodEntries(schema, read)
    ensures var r := ReadEntries(schema, read, n, s); r.Got? ==> GoodEntries(schema, r.value) && |r.value| <= |read| + n
    decreases n
  {
    hide ReadInt32, ReadPayload, SizedPayload, LoadablePayload;
    if n > 0 {
      var path := ReadPath(s);
      if path.Got? {
        ReadPayloadGood(schema, path.rest);
        var p := ReadPayload(schema, path.rest);
        if p.Got? {
          var more := read[path.value := p.value];
          assert |more| <= |read| + 1 by {
            assert more.Keys == read.Keys + {path.value};
          }
          ReadEntriesGood(schema, more, n - 1, p.rest);
        }
      }
    }
  }

  lemma ReadMapGood(schema: Schema, s: Bytes)
    ensures var r := ReadMap(schema, s); r.Got? ==> Sized(schema, r.value) && LoadableMap(r.value)
  {
    hide ReadEntries, SizedPayload, LoadablePayload;
    var n := ReadInt32(s);
    if n.Got? && 0 <= n.value {
      ReadEntriesGood(schema, map[], n.value, n.rest);
    }
  }

  lemma ReadPartitionGood(schema: Schema, two: bool, s: Bytes)
    requires two ==> schema.history
    ensures var r := ReadPartition(schema, two, s);
            r.Got? ==> SizedPartition(schema, r.value) && LoadablePartition(true, r.value)
  {
    hide ReadMap, SizedPayload, LoadableEntry;
    ReadMapGood(schema, s);
    var main := ReadMap(schema, s);
    if main.Got? {
      ReadMapGood(schema, main.rest);
    }
  }

  ghost predicate GoodPartitions(schema: Schema, parts: seq<Partition>) {
    forall i :: 0 <= i < |parts| ==> SizedPartition(schema, parts[i]) && LoadablePartition(true, parts[i])
  }

  lemma {:induction false} ReadPartitionsGood(schema: Schema, two: bool, read: seq<Partition>, n: nat, s: Bytes)
    requires (two ==> schema.history) && GoodPartitions(schema, read)
    ensures var r := ReadPartitions(schema, two, read, n, s);
            r.Got? ==> GoodPartitions(schema, r.value) && |r.value| == |read| + n
    decreases n
  {
    hide ReadPartition, SizedPartition, LoadablePartition;
    if n > 0 {
      ReadPartitionGood(schema, two, s);
      var part := ReadPartition(schema, two, s);
      if part.Got? {
        ReadPartitionsGood(schema, two, read + [part.value], n - 1, part.rest);
      }
    }
  }

  /** Whatever the bytes, the loaded state is whole and within every limit. */
  lemma LoadIsGood(schema: Schema, version: IoHash, s: Bytes)
    requires Known(schema)
    ensures Storable(schema, Load(schema, version, s)) && Loadable(true, Load(schema, version, s))
  {
    hide ReadPartitions, ReadInt32, ReadBytes;
    var format := ReadHeader(schema, version, s);
    if format.Got? {
      ReadPartitionsGood(schema, TwoMaps(schema, format.value), [], PARTITION_COUNT, format.rest);
    }
  }

  // ---------------------------------------------------------------- the theorems

  /** Loading the saved bytes gives the saved state back, unless a path or a header list is over the
      limits the load checks; then it gives nothing. */
  lemma RoundTrip(schema: Schema, version: IoHash, parts: seq<Partition>)
    requires Known(schema) && Storable(schema, parts)
    ensures Load(schema, version, SaveBytes(schema, version, parts))
         == if Loadable(true, parts) then parts else NoPartitions()
    ensures Load(schema, version, SaveBytes(schema, version, parts)) == parts <==> Loadable(true, parts)
  {
    hide ReadArchive, ArchiveBytes, LoadableMap, Sized;
    var s := SaveBytes(schema, version, parts);
    ReadArchiveOf(schema, schema.format, version, parts, []);
    assert s + [] == s;
    SameLimits(schema, parts);
    NothingIsLoadable();
  }

  /** Without a second map there is nothing in it that could be over a limit. */
  lemma SameLimits(schema: Schema, parts: seq<Partition>)
    requires Known(schema) && Storable(schema, parts)
    ensures var two := TwoMaps(schema, schema.format);
            (Loadable(two, parts) <==> Loadable(true, parts)) && KeptAll(two, parts) == parts
  {
    hide LoadableEntry, SizedPayload;
    var two := TwoMaps(schema, schema.format);
    if !two {
      forall i | 0 <= i < |parts|
        ensures LoadablePartition(true, parts[i]) <==> LoadablePartition(two, parts[i])
        ensures Kept(two, parts[i]) == parts[i]
      {
        assert SizedPartition(schema, parts[i]);
      }
    }
  }

  lemma NothingIsLoadable()
    ensures Loadable(true, NoPartitions())
  {
  }

  /** A file cut short anywhere loads as an empty archive. */
  lemma PrefixLoadsAsNothing(schema: Schema, version: IoHash, parts: seq<Partition>, cut: nat)
    requires Known(schema) && Storable(schema, parts) && cut < |SaveBytes(schema, version, parts)|
    ensures Load(schema, version, SaveBytes(schema, version, parts)[..cut]) == NoPartitions()
  {
    hide ReadArchive, ArchiveBytes, SizedPartition, Loadable;
    var s := SaveBytes(schema, version, parts);
    ReadArchiveOf(schema, schema.format, version, parts, []);
    ReadArchiveExtends(schema, version, s[..cut], s[cut..]);
    assert s + [] == s && s[..cut] + s[cut..] == s;
  }

  /** Bytes after the archive make no difference. */
  lemma TrailingBytesAreIgnored(schema: Schema, version: IoHash, parts: seq<Partition>, more: Bytes)
    requires Known(schema) && Storable(schema, parts)
    ensures Load(schema, version, SaveBytes(schema, version, parts) + more)
         == Load(schema, version, SaveBytes(schema, version, parts))
  {
    hide ReadArchive, ArchiveBytes, SizedPartition, Loadable;
    var s := SaveBytes(schema, version, parts);
    ReadArchiveOf(schema, schema.format, version, parts, []);
    ReadArchiveOf(schema, schema.format, version, parts, more);
    assert s + [] == s;
  }

  /** Saving what any bytes loaded as, and loading that, changes nothing. */
  lemma LoadSaveLoad(schema: Schema, version: IoHash, s: Bytes)
    requires Known(schema)
    ensures Storable(schema, Load(schema, version, s))
    ensures Load(schema, version, SaveBytes(schema, version, Load(schema, version, s))) == Load(schema, version, s)
  {
    hide Load, SaveBytes, SizedPartition, Loadable;
    LoadIsGood(schema, version, s);
    RoundTrip(schema, version, Load(schema, version, s));
  }

  /** A history in the first format loads with its action keys and without content hashes. */
  lemma FirstFormatLoads(version: IoHash, parts: seq<Partition>)
    requires Storable(HISTORY, parts) && Loadable(false, parts)
    ensures Load(HISTORY, version, ArchiveBytes(HISTORY, 1, version, parts)) == KeptAll(false, parts)
  {
    hide ReadArchive, ArchiveBytes, SizedPartition, Loadable;
    var s := ArchiveBytes(HISTORY, 1, version, parts);
    ReadArchiveOf(HISTORY, 1, version, parts, []);
    assert s + [] == s;
  }

  /** An archive of another schema version loads as an empty one. */
  lemma OtherVersionLoadsAsNothing(schema: Schema, saved: IoHash, current: IoHash, parts: seq<Partition>)
    requires Known(schema) && Storable(schema, parts) && saved != current
    ensures Load(schema, current, SaveBytes(schema, saved, parts)) == NoPartitions()
  {
    hide ReadInt32, ReadBytes, Int32Bytes, PartitionsBytes, ReadPartitions;
    var tail := PartitionsBytes(schema, TwoMaps(schema, schema.format), parts);
    var count := Int32Bytes(PARTITION_COUNT);
    Regroup(schema.magic + Int32Bytes(schema.format) + saved, count, tail);
    Regroup(schema.magic + Int32Bytes(schema.format), saved, count + tail);
    Regroup(schema.magic, Int32Bytes(schema.format), saved + (count + tail));
    ReadBytesOf(schema.magic, Int32Bytes(schema.format) + (saved + (count + tail)));
    ReadInt32Of(schema.format, saved + (count + tail));
    ReadBytesOf(saved, count + tail);
  }
}
